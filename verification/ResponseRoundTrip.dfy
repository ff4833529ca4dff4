/** A response that the daemon writes is read back exactly, however the socket cuts it. */
module ResponseRoundTrip {
  import opened Octets
  import opened Errors
  import opened Framing
  import opened Request
  import opened RequestGrammar
  import opened Reading
  import opened Readers
  import opened Response

  // ----- heads that can be written -----

  ghost predicate IsPlainLine(s: bytes) {
    IsOneLine(s) && All(s, IsAscii)
  }

  ghost predicate IsWritableHeader(h: Header) {
    IsToken(h.0) && IsPlainLine(h.1) && !EqIgnoreCase(h.0, CONTENT_LENGTH)
  }

  /** Token names, ASCII values without line breaks, and no framing of its own. */
  ghost predicate IsWritable(head: ResponseHead) {
    head.status <= MAX_U16 && forall i :: 0 <= i < |head.headers| ==> IsWritableHeader(head.headers[i])
  }

  /** What is relayed from an origin whose header names are tokens can be written: hop-by-hop
      filtering leaves no length of its own. */
  lemma RelayedIsWritable(headers: seq<Header>, connection: Option<string>)
    requires forall i :: 0 <= i < |headers| ==> IsToken(headers[i].0)
    ensures forall i :: 0 <= i < |Relayed(headers, connection)| ==> IsWritableHeader(Relayed(headers, connection)[i])
  {
    hide Kept;
    hide Nominates;
    forall i | 0 <= i < |Relayed(headers, connection)|
      ensures IsWritableHeader(Relayed(headers, connection)[i])
    {
      var h := Relayed(headers, connection)[i];
      KeptMembers(headers, RelayedUnder(connection), h);
      assert HOP_BY_HOP[1] == CONTENT_LENGTH;
      LowerOfContentLength();
      FieldBytesArePlain(h.1);
    }
  }

  /** Relaying keeps exactly the headers that are neither hop-by-hop nor unprintable, each as
      often as it occurs and in their order. */
  lemma RelayedIsExact(headers: seq<Header>, connection: Option<string>)
    ensures exists places :: Picks(headers, Relayed(headers, connection), RelayedUnder(connection), places)
  {
    hide IsRelayed;
    hide Picks;
    hide Kept;
    var places := KeptPicks(headers, RelayedUnder(connection));
    assert Picks(headers, Relayed(headers, connection), RelayedUnder(connection), places);
  }

  lemma LowerOfContentLength()
    ensures Lower(CONTENT_LENGTH) == CONTENT_LENGTH
  {
  }

  lemma FieldBytesArePlain(s: bytes)
    requires All(s, IsFieldByte)
    ensures IsPlainLine(s)
  {
    forall i | 0 <= i < |s| ensures !IsLineBreak(s[i]) && IsAscii(s[i]) {
      assert IsFieldByte(s[i]);
    }
  }

  lemma LengthsDiffer(a: string, b: string)
    requires |a| != |b|
    ensures !EqIgnoreCase(a, b)
  {
  }

  lemma RefusalNamesAreTokens()
    ensures IsToken("Content-Type") && IsToken("X-Capcurl-Refused")
  {
    var dash := "!#$%&'*+-.^_`|~"[8];
    assert dash == '-' && IsTokenByte('-');
    assert forall i :: 0 <= i < 12 ==> IsAlphanumeric("Content-Type"[i]) || "Content-Type"[i] == '-';
    assert forall i :: 0 <= i < 17 ==> IsAlphanumeric("X-Capcurl-Refused"[i]) || "X-Capcurl-Refused"[i] == '-';
  }

  lemma RefusalValuesArePlain()
    ensures IsPlainLine("text/plain; charset=utf-8") && IsPlainLine("1")
  {
  }

  lemma RefusedMarkerFolds()
    ensures EqIgnoreCase("X-Capcurl-Refused", X_REFUSED)
  {
  }

  /** A refusal can be written, and is marked as one. */
  lemma RefusalIsWritable(status: nat, reason: string, detail: string)
    requires status <= MAX_U16
    ensures IsWritable(Refusal(status, reason, detail).0)
    ensures FindHeader(Refusal(status, reason, detail).0.headers, X_REFUSED) == Some("1")
  {
    hide EqIgnoreCase;
    hide IsToken;
    hide IsPlainLine;
    RefusalNamesAreTokens();
    RefusalValuesArePlain();
    RefusedMarkerFolds();
    LengthsDiffer("Content-Type", X_REFUSED);
    LengthsDiffer("Content-Type", CONTENT_LENGTH);
    LengthsDiffer("X-Capcurl-Refused", CONTENT_LENGTH);
  }

  // ----- the encoded lines -----

  lemma PlainConcat(a: bytes, b: bytes)
    requires IsPlainLine(a) && IsPlainLine(b)
    ensures IsPlainLine(a + b)
  {
    OneLineConcat(a, b);
    assert forall i :: 0 <= i < |a| ==> IsAscii(a[i]);
    assert forall i :: 0 <= i < |b| ==> IsAscii(b[i]);
  }

  lemma TokenIsPlain(s: bytes)
    requires IsToken(s)
    ensures IsPlainLine(s)
  {
    TokensAreOneLine(s);
    assert forall i :: 0 <= i < |s| ==> IsTokenByte(s[i]);
  }

  lemma HeaderLineIsPlain(h: Header)
    requires IsToken(h.0) && IsPlainLine(h.1)
    ensures IsPlainLine(HeaderLine(h)) && HeaderLine(h) != []
  {
    TokenIsPlain(h.0);
    assert IsPlainLine(": ");
    PlainConcat(": ", h.1);
    PlainConcat(h.0, ": " + h.1);
  }

  lemma DecimalIsPlainLine(n: nat)
    ensures IsPlainLine(Decimal(n))
  {
    DecimalIsPlain(n);
    assert forall i :: 0 <= i < |Decimal(n)| ==> IsPrintable(Decimal(n)[i]);
  }

  lemma UnknownIsShown()
    ensures "Unknown" != [] && |"Unknown"| <= 64 && All("Unknown", IsShown)
  {
  }

  lemma ReasonIsPlain(reason: string)
    ensures IsPlainLine(SanitizeReason(reason))
  {
    UnknownIsShown();
    SanitizeIsPrintable(reason, "Unknown");
    var r := SanitizeReason(reason);
    assert forall i :: 0 <= i < |r| ==> IsShown(r[i]);
  }

  lemma StatusLineIsPlain(status: nat, reason: string)
    ensures IsPlainLine(StatusLine(status, reason)) && StatusLine(status, reason) != []
  {
    ReasonIsPlain(reason);
    DecimalIsPlainLine(status);
    assert IsPlainLine(" ") && IsPlainLine("HTTP/1.1 ");
    PlainConcat(" ", SanitizeReason(reason));
    PlainConcat(Decimal(status), " " + SanitizeReason(reason));
    PlainConcat("HTTP/1.1 ", Decimal(status) + (" " + SanitizeReason(reason)));
  }

  lemma OwnFramingIsPlain(n: nat)
    ensures forall i :: 0 <= i < 2 ==> IsToken(OwnFraming(n)[i].0) && IsPlainLine(OwnFraming(n)[i].1)
  {
    DecimalIsPlainLine(n);
    assert All("Content-Length", IsTokenByte) && All("Connection", IsTokenByte);
    assert IsPlainLine("close");
  }

  lemma EncodedLinesArePlain(head: ResponseHead, n: nat)
    requires IsWritable(head)
    ensures var ls := EncodedLines(head, n);
            AreLines(ls) && NoneEmpty(ls) && forall i :: 0 <= i < |ls| ==> All(ls[i], IsAscii)
  {
    hide StatusLine;
    hide HeaderLine;
    var ls, hs := EncodedLines(head, n), head.headers + OwnFraming(n);
    StatusLineIsPlain(head.status, head.reason);
    OwnFramingIsPlain(n);
    forall i | 0 <= i < |ls| ensures IsPlainLine(ls[i]) && ls[i] != [] {
      if i > 0 {
        if i - 1 < |head.headers| {
          assert IsWritableHeader(head.headers[i - 1]);
        }
        HeaderLineIsPlain(hs[i - 1]);
      }
    }
  }

  lemma {:induction false} JoinIsAscii(ls: seq<bytes>)
    requires forall i :: 0 <= i < |ls| ==> All(ls[i], IsAscii)
    ensures All(JoinLines(ls), IsAscii)
  {
    if ls != [] {
      assert forall i :: 0 <= i < |ls[1..]| ==> ls[1..][i] == ls[i + 1];
      JoinIsAscii(ls[1..]);
      assert forall i :: 0 <= i < |ls[0]| ==> IsAscii(ls[0][i]);
      assert forall i :: 0 <= i < |JoinLines(ls[1..])| ==> IsAscii(JoinLines(ls[1..])[i]);
    }
  }

  // ----- parsing what was written -----

  lemma SplitFirstLine(line: bytes, rest: bytes)
    requires IsOneLine(line)
    ensures SplitCrlf(line + CRLF + rest) == [line] + SplitCrlf(rest)
  {
    var s := line + CRLF + rest;
    assert At(s, 0, line) && CrlfAt(s, |line|);
    FirstCrlfAfterLine(s, 0, line);
    assert s[..|line|] == line && s[|line| + 2..] == rest;
  }

  lemma {:induction false} SplitOfJoin(ls: seq<bytes>)
    requires AreLines(ls)
    ensures SplitCrlf(JoinLines(ls)) == ls + [[]]
  {
    if ls != [] {
      SplitFirstLine(ls[0], JoinLines(ls[1..]));
      SplitOfJoin(ls[1..]);
      Assoc([ls[0]], ls[1..], [[]]);
    } else {
      assert [] + [[]] == ls + [[]];
    }
  }

  lemma StatusLineParses(status: nat, reason: string)
    requires status <= MAX_U16
    ensures ParseStatusLine(StatusLine(status, reason)) == Ok((status, SanitizeReason(reason)))
  {
    hide FirstOf;
    hide SanitizeReason;
    var text, shown := Decimal(status), SanitizeReason(reason);
    var line, rest := StatusLine(status, reason), Decimal(status) + (" " + SanitizeReason(reason));
    assert line == "HTTP/1.1" + [' '] + rest;
    FirstOfConcat("HTTP/1.1", ' ', rest);
    assert line[..8] == "HTTP/1.1" && line[9..] == rest;
    DecimalIsPlain(status);
    assert ' ' !in text by {
      assert forall i :: 0 <= i < |text| ==> IsPrintable(text[i]);
    }
    assert rest == text + [' '] + shown;
    FirstOfConcat(text, ' ', shown);
    assert rest[..|text|] == text && rest[|text| + 1..] == shown;
    ParseUnsignedDecimal(status, MAX_U16);
  }

  /** A space before a text does not survive trimming. */
  lemma TrimAfterSpace(v: string)
    ensures Trim(" " + v) == Trim(v)
  {
    var pre, post := TrimSplits(v, IsWhite);
    var spaced := " " + pre;
    assert All(spaced, IsWhite) by {
      assert forall i :: 0 <= i < |pre| ==> IsWhite(pre[i]);
    }
    assert " " + v == spaced + Trim(v) + post;
    TrimIsUnique(" " + v, IsWhite, spaced, Trim(v), post);
  }

  lemma TokenIsTrimmed(name: string)
    requires IsToken(name)
    ensures Trim(name) == name && ':' !in name
  {
    assert IsTokenByte(name[0]) && IsTokenByte(name[|name| - 1]);
    assert forall i :: 0 <= i < |name| ==> IsTokenByte(name[i]);
    TrimOfTrimmed(name, IsWhite);
  }

  lemma HeaderLineParsesBack(h: Header)
    requires IsToken(h.0)
    ensures ParseField(HeaderLine(h)) == Some((h.0, Trim(h.1)))
  {
    hide FirstOf;
    hide Trim;
    var line, rest := HeaderLine(h), " " + h.1;
    TokenIsTrimmed(h.0);
    FirstOfConcat(h.0, ':', rest);
    assert line == h.0 + [':'] + rest;
    assert line[..|h.0|] == h.0 && line[|h.0| + 1..] == rest;
    TrimAfterSpace(h.1);
  }

  function TrimmedHeaders(hs: seq<Header>): seq<Header> {
    if hs == [] then [] else [(hs[0].0, Trim(hs[0].1))] + TrimmedHeaders(hs[1..])
  }

  lemma ParseOneField(line: bytes, rest: seq<bytes>, sofar: seq<Header>, h: Header)
    requires ParseField(line) == Some(h) && line != []
    ensures ParseFields([line] + rest, sofar) == ParseFields(rest, sofar + [h])
  {
    hide ParseField;
    assert ([line] + rest)[1..] == rest;
  }

  lemma HeaderLinesFirst(hs: seq<Header>)
    requires hs != []
    ensures HeaderLines(hs) == [HeaderLine(hs[0])] + HeaderLines(hs[1..])
  {
    hide HeaderLine;
  }

  lemma {:induction false} HeaderLinesParseBack(hs: seq<Header>, sofar: seq<Header>)
    requires forall i :: 0 <= i < |hs| ==> IsToken(hs[i].0)
    ensures ParseFields(HeaderLines(hs) + [[], []], sofar) == Ok(sofar + TrimmedHeaders(hs))
    decreases |hs|
  {
    hide ParseField;
    hide HeaderLine;
    hide Trim;
    if hs == [] {
      assert HeaderLines(hs) + [[], []] == [[], []];
      assert sofar + TrimmedHeaders(hs) == sofar;
    } else {
      hide ParseFields;
      hide HeaderLines;
      var rest, h := hs[1..], (hs[0].0, Trim(hs[0].1));
      HeaderLineParsesBack(hs[0]);
      LineIsNotEmpty(hs[0]);
      HeaderLinesFirst(hs);
      Assoc([HeaderLine(hs[0])], HeaderLines(rest), [[], []]);
      ParseOneField(HeaderLine(hs[0]), HeaderLines(rest) + [[], []], sofar, h);
      HeaderLinesParseBack(rest, sofar + [h]);
      Assoc(sofar, [h], TrimmedHeaders(rest));
    }
  }

  lemma LineIsNotEmpty(h: Header)
    ensures HeaderLine(h) != []
  {
  }

  lemma EncodedHeadParses(head: ResponseHead, n: nat)
    requires IsWritable(head)
    ensures ParseStatusAndHeaders(Encode(head, n))
            == Ok(ResponseHead(head.status, SanitizeReason(head.reason), TrimmedHeaders(head.headers + OwnFraming(n))))
  {
    hide StatusLine;
    hide HeaderLines;
    hide ParseStatusLine;
    hide ParseFields;
    hide SanitizeReason;
    hide SplitCrlf;
    hide TrimmedHeaders;
    var ls, hs := EncodedLines(head, n), head.headers + OwnFraming(n);
    EncodedLinesArePlain(head, n);
    JoinAppend(ls, [[]]);
    EmptyLine();
    var all := ls + [[]];
    assert AreLines(all);
    JoinIsAscii(all);
    Utf8.AsciiDecodes(Encode(head, n));
    SplitOfJoin(all);
    assert all + [[]] == [StatusLine(head.status, head.reason)] + (HeaderLines(hs) + [[], []]);
    StatusLineParses(head.status, head.reason);
    NamesAreTokens(head, n);
    HeaderLinesParseBack(hs, []);
    assert [] + TrimmedHeaders(hs) == TrimmedHeaders(hs);
  }

  lemma NamesAreTokens(head: ResponseHead, n: nat)
    requires IsWritable(head)
    ensures var hs := head.headers + OwnFraming(n);
            forall i :: 0 <= i < |hs| ==> IsToken(hs[i].0)
  {
    OwnFramingIsPlain(n);
    var hs := head.headers + OwnFraming(n);
    forall i | 0 <= i < |hs| ensures IsToken(hs[i].0) {
      if i < |head.headers| {
        assert IsWritableHeader(head.headers[i]);
      }
    }
  }

  // ----- the length read back is the one written -----

  lemma {:induction false} FindTrimmed(hs: seq<Header>, own: seq<Header>, name: string)
    requires own != [] && EqIgnoreCase(own[0].0, name)
    requires forall i :: 0 <= i < |hs| ==> !EqIgnoreCase(hs[i].0, name)
    ensures FindHeader(TrimmedHeaders(hs + own), name) == Some(Trim(own[0].1))
  {
    hide EqIgnoreCase;
    hide Trim;
    if hs == [] {
      assert hs + own == own;
    } else {
      assert (hs + own)[1..] == hs[1..] + own && (hs + own)[0] == hs[0];
      assert forall i :: 0 <= i < |hs[1..]| ==> hs[1..][i] == hs[i + 1];
      FindTrimmed(hs[1..], own, name);
      var t := TrimmedHeaders(hs + own);
      assert t[0] == (hs[0].0, Trim(hs[0].1)) && t[1..] == TrimmedHeaders(hs[1..] + own);
    }
  }

  lemma WrittenLengthIsRead(head: ResponseHead, n: nat)
    requires IsWritable(head) && n <= MAX_U64
    ensures DeclaredLength(TrimmedHeaders(head.headers + OwnFraming(n))) == Ok(n)
  {
    assert forall i :: 0 <= i < |head.headers| ==> IsWritableHeader(head.headers[i]);
    assert EqIgnoreCase("Content-Length", CONTENT_LENGTH);
    FindTrimmed(head.headers, OwnFraming(n), CONTENT_LENGTH);
    DecimalIsPlain(n);
    TrimOfTrimmed(Decimal(n), IsWhite);
    ParseUnsignedDecimal(n, MAX_U64);
  }

  // ----- the round trip -----

  /** A head that is found is found whole, and the rest is the body. */
  lemma HeadArrives(head: bytes, body: bytes, segs: seq<bytes>)
    requires Segments(segs) && Flatten(segs) == head + body
    requires FindHeadEnd(head + body) == Some(|head|)
    ensures var p := Accumulate(WholeHead, [], segs);
            && p.verdict != Ended && Segments(p.rest)
            && (p.verdict == Finished ==> && FindHeadEnd(p.buf) == Some(|head|) && p.buf[..|head|] == head
                                          && p.buf[|head|..] + Flatten(p.rest) == body)
  {
    hide Accumulate;
    hide FindHeadEnd;
    var s, p := head + body, Accumulate(WholeHead, [], segs);
    assert [] + Flatten(segs) == s;
    AccumulateKeepsBytes(WholeHead, [], segs);
    HeadDecides(s, |head|);
    hide Deciding;
    VerdictOfStream(WholeHead, [], segs);
    if p.verdict == Finished {
      HeadEndIsStable(p.buf, s);
      PartOfWhole(p.buf, Flatten(p.rest), head, body);
    }
  }

  lemma PartOfWhole(buf: bytes, rest: bytes, head: bytes, body: bytes)
    requires buf + rest == head + body && |head| <= |buf|
    ensures buf[..|head|] == head && buf[|head|..] + rest == body
  {
    var s := buf + rest;
    assert s[..|head|] == head && s[|head|..] == body;
    assert s[..|head|] == buf[..|head|] && s[|head|..] == buf[|head|..] + rest;
  }

  lemma HeadDecides(s: bytes, end: nat)
    requires FindHeadEnd(s) == Some(end)
    ensures Deciding(WholeHead, s) == Some(end)
  {
    hide Deciding;
    var n := Deciding(WholeHead, s);
    HeadEndWithin(s, s[..end]);
    ReachedFromDeciding(WholeHead, s, end);
    ReachedFromDeciding(WholeHead, s, n.value);
    HeadEndIsStable(s[..n.value], s);
  }

  /** Exactly the body is read, however it is cut. */
  lemma BodyArrives(len: nat, held: bytes, segs: seq<bytes>, body: bytes)
    requires Segments(segs) && held + Flatten(segs) == body && |body| == len
    ensures var p := Accumulate(Bytes(len), held, segs);
            p.verdict == Finished && len <= |p.buf| && p.buf[..len] == body
  {
    hide Accumulate;
    hide Deciding;
    var p := Accumulate(Bytes(len), held, segs);
    AccumulateKeepsBytes(Bytes(len), held, segs);
    assert body[..len] == body;
    ReachedFromDeciding(Bytes(len), body, len);
    SettledIsIndependent(Bytes(len), held, segs);
    VerdictOfStream(Bytes(len), held, segs);
    assert p.buf == body;
  }

  /** What the client is told about a response that the daemon wrote. */
  function Delivered(head: ResponseHead, body: bytes): ClientResponse {
    var headers := TrimmedHeaders(head.headers + OwnFraming(|body|));
    ClientResponse(head.status, SanitizeReason(head.reason), headers, body, FindHeader(headers, X_REFUSED).Some?)
  }

  lemma EncodedHeadIsCut(head: ResponseHead, body: bytes)
    requires IsWritable(head)
    ensures FindHeadEnd(Encode(head, |body|) + body) == Some(|Encode(head, |body|)|)
  {
    hide EncodedLines;
    EncodedLinesArePlain(head, |body|);
    NotNoLines(head, |body|);
    HeadIsCutAtItsEnd(EncodedLines(head, |body|), body);
  }

  lemma NotNoLines(head: ResponseHead, n: nat)
    ensures EncodedLines(head, n) != []
  {
  }

  /** What the client reads of a written response is decided by whether it finds the head. */
  lemma ResponseIsReadOrRefused(head: ResponseHead, body: bytes, segs: seq<bytes>, broken: bool)
    requires IsWritable(head) && |body| <= MAX_U64
    requires Segments(segs) && Flatten(segs) == Encode(head, |body|) + body
    ensures ResponseResult(segs, broken) == if Accumulate(WholeHead, [], segs).verdict == Finished
                                    then Ok(Delivered(head, body)) else Err(Http(HeadTooLarge))
  {
    hide Encode;
    hide ParseStatusAndHeaders;
    hide DeclaredLength;
    hide Accumulate;
    hide TrimmedHeaders;
    hide SanitizeReason;
    hide FindHeader;
    hide FindHeadEnd;
    EncodedHeadIsCut(head, body);
    HeadArrives(Encode(head, |body|), body, segs);
    EncodedHeadParses(head, |body|);
    WrittenLengthIsRead(head, |body|);
    var p := Accumulate(WholeHead, [], segs);
    if p.verdict == Finished {
      BodyArrives(|body|, p.buf[|Encode(head, |body|)|..], p.rest, body);
    }
  }

  lemma WrittenHeadDecides(head: ResponseHead, body: bytes)
    requires IsWritable(head)
    ensures Deciding(WholeHead, Encode(head, |body|) + body) == Some(|Encode(head, |body|)|)
  {
    hide Encode;
    hide Deciding;
    hide FindHeadEnd;
    EncodedHeadIsCut(head, body);
    HeadDecides(Encode(head, |body|) + body, |Encode(head, |body|)|);
  }

  /** Reading what was written gives back status, sanitized reason, trimmed headers with the
      daemon's own framing, and exactly the body. */
  lemma ResponsesRoundTrip(head: ResponseHead, body: bytes, segs: seq<bytes>, broken: bool)
    requires IsWritable(head) && |body| <= MAX_U64 && |Encode(head, |body|)| <= MAX_HEAD_LEN + 1
    requires Segments(segs) && Flatten(segs) == Encode(head, |body|) + body
    ensures ResponseResult(segs, broken) == Ok(Delivered(head, body))
  {
    hide Encode;
    hide ResponseResult;
    hide Accumulate;
    hide Deciding;
    WrittenHeadDecides(head, body);
    ResponseIsReadOrRefused(head, body, segs, broken);
    assert [] + Flatten(segs) == Flatten(segs);
    SettledIsIndependent(WholeHead, [], segs);
  }

  /** Longer heads are lost when they come byte by byte. */
  lemma LongHeadsCanBeLost(head: ResponseHead, body: bytes, broken: bool)
    requires IsWritable(head) && |body| <= MAX_U64 && MAX_HEAD_LEN + 1 < |Encode(head, |body|)|
    ensures var segs := CutAt(Encode(head, |body|) + body, MAX_HEAD_LEN, MAX_HEAD_LEN + 1);
            && Segments(segs) && Flatten(segs) == Encode(head, |body|) + body
            && ResponseResult(segs, broken) == Err(Http(HeadTooLarge))
  {
    hide Encode;
    hide ResponseResult;
    hide Accumulate;
    hide Deciding;
    hide CutAt;
    var s := Encode(head, |body|) + body;
    WrittenHeadDecides(head, body);
    CutAtIsSegmentation(s, MAX_HEAD_LEN, MAX_HEAD_LEN + 1);
    CutAtGuard(WholeHead, s, MAX_HEAD_LEN + 1);
    ResponseIsReadOrRefused(head, body, CutAt(s, MAX_HEAD_LEN, MAX_HEAD_LEN + 1), broken);
  }

  /** Every segmentation of a written response delivers it. */
  ghost predicate IsAlwaysDelivered(head: ResponseHead, body: bytes) {
    forall segs, broken :: Segments(segs) && Flatten(segs) == Encode(head, |body|) + body
                           ==> ResponseResult(segs, broken) == Ok(Delivered(head, body))
  }

  /** Every segmentation of a written response is refused. */
  ghost predicate IsAlwaysRefused(head: ResponseHead, body: bytes) {
    forall segs, broken :: Segments(segs) && Flatten(segs) == Encode(head, |body|) + body
                           ==> ResponseResult(segs, broken) == Err(Http(HeadTooLarge))
  }

  /** Exactly which responses survive every segmentation: those whose head is at most one byte
      over the limit. */
  lemma DeliveredExactly(head: ResponseHead, body: bytes)
    requires IsWritable(head) && |body| <= MAX_U64
    ensures IsAlwaysDelivered(head, body) <==> |Encode(head, |body|)| <= MAX_HEAD_LEN + 1
  {
    hide Encode;
    hide ResponseResult;
    hide CutAt;
    hide Delivered;
    if |Encode(head, |body|)| <= MAX_HEAD_LEN + 1 {
      forall segs, broken | Segments(segs) && Flatten(segs) == Encode(head, |body|) + body
        ensures ResponseResult(segs, broken) == Ok(Delivered(head, body))
      {
        ResponsesRoundTrip(head, body, segs, broken);
      }
    } else {
      LongHeadsCanBeLost(head, body, false);
    }
  }

  /** And exactly which survive none: those whose head is more than one read over the limit. */
  lemma RefusedExactly(head: ResponseHead, body: bytes)
    requires IsWritable(head) && |body| <= MAX_U64
    ensures IsAlwaysRefused(head, body) <==> MAX_HEAD_LEN + READ_SIZE < |Encode(head, |body|)|
  {
    hide Encode;
    hide ResponseResult;
    hide CutAt;
    hide Delivered;
    hide Accumulate;
    hide Deciding;
    var s, n := Encode(head, |body|) + body, |Encode(head, |body|)|;
    WrittenHeadDecides(head, body);
    if MAX_HEAD_LEN + READ_SIZE < n {
      forall segs, broken | Segments(segs) && Flatten(segs) == s
        ensures ResponseResult(segs, broken) == Err(Http(HeadTooLarge))
      {
        FarPastGuard(WholeHead, segs);
        ResponseIsReadOrRefused(head, body, segs, broken);
      }
    } else if n <= MAX_HEAD_LEN + 1 {
      SinglesAreSegments(s);
      ResponsesRoundTrip(head, body, Singles(s), false);
    } else {
      CutAtIsSegmentation(s, MAX_HEAD_LEN, n);
      CutAtGuard(WholeHead, s, n);
      ResponseIsReadOrRefused(head, body, CutAt(s, MAX_HEAD_LEN, n), false);
    }
  }

  // ----- a head that is too long -----

  lemma {:induction false} JoinCovers(ls: seq<bytes>, k: nat)
    requires k < |ls|
    ensures |ls[k]| <= |JoinLines(ls)|
  {
    if k > 0 {
      JoinCovers(ls[1..], k - 1);
    }
  }

  /** A head with one long header. */
  function LongHead(n: nat): ResponseHead {
    ResponseHead(200, "OK", [("Link", seq(n, _ => 'x'))])
  }

  /** Relaying bounds no header, so heads that can be lost do reach the client. */
  lemma LongHeadsExist(n: nat, body: bytes)
    requires MAX_HEAD_LEN < n && |body| <= MAX_U64
    ensures IsWritable(LongHead(n)) && Relayed(LongHead(n).headers, None) == LongHead(n).headers
    ensures !IsAlwaysDelivered(LongHead(n), body)
  {
    var head := LongHead(n);
    var h := head.headers[0];
    LinkIsRelayed(h.1);
    assert head.headers[1..] == [] && [h] + [] == head.headers;
    assert Kept(head.headers[1..], RelayedUnder(None)) == [];
    hide IsAlwaysDelivered;
    hide Encode;
    LongHeadIsLong(n, |body|);
    DeliveredExactly(head, body);
  }

  lemma LinkIsRelayed(value: bytes)
    requires forall i :: 0 <= i < |value| ==> value[i] == 'x'
    ensures IsRelayed(("Link", value), None) && IsWritableHeader(("Link", value))
  {
    LengthsDiffer("Link", CONTENT_LENGTH);
    assert Lower("Link") == "link";
    assert forall k :: 0 <= k < |HOP_BY_HOP| ==> HOP_BY_HOP[k] != "link";
  }

  lemma LongHeadIsLong(n: nat, bodyLen: nat)
    ensures n + 2 < |Encode(LongHead(n), bodyLen)|
  {
    var head := LongHead(n);
    var ls := EncodedLines(head, bodyLen);
    assert ls[1] == HeaderLine(head.headers[0]);
    JoinCovers(ls, 1);
  }
}
