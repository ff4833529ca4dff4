/** The chunked decoder: an exact grammar, and stability under more input.

    The grammar is section 7.1 of RFC 9112 without chunk extensions and without trailers. */
module Chunked {
  import opened Octets
  import opened Errors

  // ----- sizes -----

  predicate IsSizeLine(s: bytes) {
    1 <= |s| <= 16 && AllOf(s, IsHex)
  }

  function HexValue(s: bytes): nat
    requires All(s, IsHex)
  {
    if s == [] then 0 else 16 * HexValue(s[..|s| - 1]) + HexDigitValue(s[|s| - 1])
  }

  function Pow16(n: nat): nat {
    if n == 0 then 1 else 16 * Pow16(n - 1)
  }

  lemma {:induction false} HexValueBound(s: bytes)
    requires All(s, IsHex)
    ensures HexValue(s) < Pow16(|s|)
  {
    if s != [] {
      HexValueBound(s[..|s| - 1]);
    }
  }

  lemma {:induction false} Pow16Monotone(m: nat, n: nat)
    requires m <= n
    ensures Pow16(m) <= Pow16(n)
    decreases n - m
  {
    if m < n {
      Pow16Monotone(m + 1, n);
    }
  }

  lemma Pow16Of16()
    ensures Pow16(16) == 0x1_0000_0000_0000_0000
  {
    assert Pow16(4) == 0x1_0000;
    assert Pow16(8) == 0x1_0000_0000 by {
      assert Pow16(8) == 16 * 16 * 16 * 16 * Pow16(4);
    }
    assert Pow16(12) == 16 * 16 * 16 * 16 * Pow16(8);
    assert Pow16(16) == 16 * 16 * 16 * 16 * Pow16(12);
  }

  /** An accepted size line always fits 64 bits, so the radix conversion never fails. */
  lemma SizeLineFits(s: bytes)
    requires IsSizeLine(s)
    ensures HexValue(s) <= MAX_U64
  {
    HexValueBound(s);
    Pow16Monotone(|s|, 16);
    Pow16Of16();
  }

  function ParseChunkSize(line: bytes): Option<nat> {
    if IsSizeLine(line) then Some(HexValue(line)) else None
  }

  // ----- the decoder -----

  datatype Outcome =
    | Complete(body: bytes, consumed: nat)
    | NeedMore
    | Rejected(error: HttpError)

  /** What one round of the decoding loop finds at `pos`, `have` bytes already decoded. */
  datatype Round =
    | Starved
    | Fault(error: HttpError)
    | Last(consumed: nat)
    | Data(start: nat, size: nat)

  function RoundAt(input: bytes, pos: nat, have: nat, limit: nat): (r: Round)
    requires pos <= |input|
    ensures r.Data? ==> pos <= r.start && r.start + r.size + 2 <= |input|
  {
    match FirstCrlf(input, pos)
    case None => Starved
    case Some(end) =>
      if ';' in input[pos..end] then Fault(BadChunk)
      else
        match ParseChunkSize(input[pos..end])
        case None => Fault(BadChunk)
        case Some(size) =>
          if size == 0 then
            match FirstCrlf(input, end + 2)
            case None => Starved
            case Some(trailer) => if trailer == end + 2 then Last(end + 4) else Fault(BadChunk)
          else if have + size > limit then Fault(BodyTooLarge)
          else if |input| < end + 2 + size + 2 then Starved
          else if !CrlfAt(input, end + 2 + size) then Fault(BadChunk)
          else Data(end + 2, size)
  }

  function DecodeFrom(input: bytes, pos: nat, body: bytes, limit: nat): Outcome
    requires pos <= |input|
    decreases |input| - pos
  {
    match RoundAt(input, pos, |body|, limit)
    case Starved => NeedMore
    case Fault(e) => Rejected(e)
    case Last(consumed) => Complete(body, consumed)
    case Data(start, size) => DecodeFrom(input, start + size + 2, body + input[start..start + size], limit)
  }

  /** What `decode_chunked` means: what it returns if sums are taken in the unbounded integers. */
  function Decode(input: bytes, limit: nat): Outcome {
    DecodeFrom(input, 0, [], limit)
  }

  lemma DecodeUnfolds(input: bytes, pos: nat, body: bytes, limit: nat)
    requires pos <= |input|
    ensures DecodeFrom(input, pos, body, limit)
            == match RoundAt(input, pos, |body|, limit)
               case Starved => NeedMore
               case Fault(e) => Rejected(e)
               case Last(consumed) => Complete(body, consumed)
               case Data(start, size) =>
                 DecodeFrom(input, start + size + 2, body + input[start..start + size], limit)
  {
  }

  // ----- the grammar -----

  datatype Chunk = Chunk(size: bytes, data: bytes)

  ghost predicate IsChunk(c: Chunk) {
    IsSizeLine(c.size) && c.data != [] && HexValue(c.size) == |c.data|
  }

  ghost predicate AreChunks(cs: seq<Chunk>) {
    forall i :: 0 <= i < |cs| ==> IsChunk(cs[i])
  }

  ghost predicate IsLastSize(z: bytes) {
    IsSizeLine(z) && HexValue(z) == 0
  }

  function ChunkBytes(c: Chunk): bytes {
    c.size + CRLF + c.data + CRLF
  }

  function ChunksBytes(cs: seq<Chunk>): bytes {
    if cs == [] then [] else ChunkBytes(cs[0]) + ChunksBytes(cs[1..])
  }

  function Payload(cs: seq<Chunk>): bytes {
    if cs == [] then [] else cs[0].data + Payload(cs[1..])
  }

  function Wire(cs: seq<Chunk>, z: bytes): bytes {
    ChunksBytes(cs) + z + CRLF + CRLF
  }

  /** `wire` is exactly one chunked body that carries `body`. */
  ghost predicate Encodes(wire: bytes, body: bytes) {
    exists cs, z :: AreChunks(cs) && IsLastSize(z) && wire == Wire(cs, z) && body == Payload(cs)
  }

  lemma SizeLinesAreOneLine(s: bytes)
    requires IsSizeLine(s)
    ensures IsOneLine(s) && ';' !in s
  {
    forall i | 0 <= i < |s| ensures !IsLineBreak(s[i]) && s[i] != ';' {
      assert IsHex(s[i]);
    }
  }

  /** A size line standing at `pos` with its CRLF is what the round there reads. */
  lemma ReadsSizeLine(input: bytes, pos: nat, size: bytes)
    requires IsSizeLine(size) && At(input, pos, size) && At(input, pos + |size|, CRLF)
    ensures FirstCrlf(input, pos) == Some(pos + |size|)
    ensures input[pos..pos + |size|] == size && ';' !in size
  {
    SizeLinesAreOneLine(size);
    AtCrlf(input, pos + |size|);
    FirstCrlfAfterLine(input, pos, size);
    AtIsSlice(input, pos, size);
  }

  lemma ChunkAt(input: bytes, pos: nat, c: Chunk)
    ensures At(input, pos, ChunkBytes(c))
            <==> At(input, pos, c.size) && At(input, pos + |c.size|, CRLF)
                 && At(input, pos + |c.size| + 2, c.data) && At(input, pos + |c.size| + 2 + |c.data|, CRLF)
  {
    AtConcat(input, pos, c.size, CRLF);
    AtConcat(input, pos, c.size + CRLF, c.data);
    AtConcat(input, pos, c.size + CRLF + c.data, CRLF);
  }

  /** One round reads one chunk, when it fits the limit. */
  lemma RoundReadsChunk(input: bytes, pos: nat, c: Chunk, have: nat, limit: nat)
    requires IsChunk(c) && have + |c.data| <= limit && At(input, pos, ChunkBytes(c))
    ensures RoundAt(input, pos, have, limit) == Data(pos + |c.size| + 2, |c.data|)
    ensures input[pos + |c.size| + 2..pos + |c.size| + 2 + |c.data|] == c.data
  {
    ChunkAt(input, pos, c);
    ReadsSizeLine(input, pos, c.size);
    AtCrlf(input, pos + |c.size| + 2 + |c.data|);
    AtIsSlice(input, pos + |c.size| + 2, c.data);
  }

  /** And a round that reads data has read one chunk of the grammar. */
  lemma RoundIsChunk(input: bytes, pos: nat, have: nat, limit: nat) returns (c: Chunk)
    requires pos <= |input| && RoundAt(input, pos, have, limit).Data?
    ensures IsChunk(c) && have + |c.data| <= limit && At(input, pos, ChunkBytes(c))
  {
    hide HexValue;
    var r := RoundAt(input, pos, have, limit);
    var end := FirstCrlf(input, pos).value;
    c := Chunk(input[pos..end], input[r.start..r.start + r.size]);
    ChunkAt(input, pos, c);
    AtCrlf(input, end);
    AtCrlf(input, r.start + r.size);
  }

  /** Decoding runs through one chunk. */
  lemma DecodeThroughChunk(input: bytes, pos: nat, body: bytes, limit: nat, c: Chunk)
    requires IsChunk(c) && |body| + |c.data| <= limit && At(input, pos, ChunkBytes(c))
    ensures DecodeFrom(input, pos, body, limit) == DecodeFrom(input, pos + |ChunkBytes(c)|, body + c.data, limit)
  {
    hide RoundAt;
    hide DecodeFrom;
    RoundReadsChunk(input, pos, c, |body|, limit);
    DecodeUnfolds(input, pos, body, limit);
  }

  /** Decoding runs through any sequence of chunks that fits the limit. */
  lemma {:induction false} DecodeThroughChunks(input: bytes, pos: nat, body: bytes, limit: nat, cs: seq<Chunk>)
    requires AreChunks(cs) && |body| + |Payload(cs)| <= limit && At(input, pos, ChunksBytes(cs))
    ensures DecodeFrom(input, pos, body, limit)
            == DecodeFrom(input, pos + |ChunksBytes(cs)|, body + Payload(cs), limit)
    decreases |cs|
  {
    hide RoundAt;
    hide DecodeFrom;
    hide ChunkBytes;
    if cs == [] {
      assert body + Payload(cs) == body;
    } else {
      var mid, had := pos + |ChunkBytes(cs[0])|, body + cs[0].data;
      assert At(input, pos, ChunkBytes(cs[0])) && At(input, mid, ChunksBytes(cs[1..])) by {
        AtConcat(input, pos, ChunkBytes(cs[0]), ChunksBytes(cs[1..]));
      }
      assert had + Payload(cs[1..]) == body + Payload(cs);
      assert mid + |ChunksBytes(cs[1..])| == pos + |ChunksBytes(cs)|;
      DecodeThroughChunk(input, pos, body, limit, cs[0]);
      DecodeThroughChunks(input, mid, had, limit, cs[1..]);
    }
  }

  /** Every decoding is a run of chunks followed by one round that reads no data. */
  ghost predicate StopsAfter(input: bytes, limit: nat, cs: seq<Chunk>) {
    AreChunks(cs) && |Payload(cs)| <= limit && At(input, 0, ChunksBytes(cs))
    && !RoundAt(input, |ChunksBytes(cs)|, |Payload(cs)|, limit).Data?
  }

  lemma {:induction false} ChunksAppend(cs: seq<Chunk>, c: Chunk)
    ensures ChunksBytes(cs + [c]) == ChunksBytes(cs) + ChunkBytes(c)
    ensures Payload(cs + [c]) == Payload(cs) + c.data
  {
    if cs == [] {
      assert cs + [c] == [c] && [c][1..] == [];
    } else {
      hide ChunkBytes;
      assert (cs + [c])[1..] == cs[1..] + [c];
      ChunksAppend(cs[1..], c);
      assert ChunkBytes(cs[0]) + (ChunksBytes(cs[1..]) + ChunkBytes(c))
          == ChunkBytes(cs[0]) + ChunksBytes(cs[1..]) + ChunkBytes(c);
    }
  }

  lemma {:induction false} RunOfChunks(input: bytes, limit: nat, done: seq<Chunk>) returns (cs: seq<Chunk>)
    requires AreChunks(done) && |Payload(done)| <= limit && At(input, 0, ChunksBytes(done))
    ensures StopsAfter(input, limit, cs)
    decreases |input| - |ChunksBytes(done)|
  {
    hide RoundAt;
    var pos := |ChunksBytes(done)|;
    if RoundAt(input, pos, |Payload(done)|, limit).Data? {
      var c := RoundIsChunk(input, pos, |Payload(done)|, limit);
      ChunksAppend(done, c);
      AtConcat(input, 0, ChunksBytes(done), ChunkBytes(c));
      cs := RunOfChunks(input, limit, done + [c]);
    } else {
      cs := done;
    }
  }

  /** The outcome of a decoding is the outcome of the round after its run of chunks. */
  lemma OutcomeAfterRun(input: bytes, limit: nat, cs: seq<Chunk>)
    requires StopsAfter(input, limit, cs)
    ensures var r := RoundAt(input, |ChunksBytes(cs)|, |Payload(cs)|, limit);
            Decode(input, limit) == match r
                                    case Starved => NeedMore
                                    case Fault(e) => Rejected(e)
                                    case Last(n) => Complete(Payload(cs), n)
  {
    hide RoundAt;
    hide DecodeFrom;
    DecodeThroughChunks(input, 0, [], limit, cs);
    assert [] + Payload(cs) == Payload(cs);
    DecodeUnfolds(input, |ChunksBytes(cs)|, Payload(cs), limit);
  }

  /** A zero size line and an empty trailer end the body. */
  lemma RoundReadsLast(input: bytes, pos: nat, z: bytes, have: nat, limit: nat)
    requires IsLastSize(z) && At(input, pos, z + CRLF + CRLF)
    ensures RoundAt(input, pos, have, limit) == Last(pos + |z| + 4)
  {
    AtConcat(input, pos, z, CRLF);
    AtConcat(input, pos, z + CRLF, CRLF);
    ReadsSizeLine(input, pos, z);
    AtCrlf(input, pos + |z| + 2);
    FirstCrlfAfterLine(input, pos + |z| + 2, []);
  }

  /** Nothing else does. */
  lemma LastIsTerminator(input: bytes, pos: nat, have: nat, limit: nat) returns (z: bytes)
    requires pos <= |input| && RoundAt(input, pos, have, limit).Last?
    ensures IsLastSize(z) && At(input, pos, z + CRLF + CRLF)
    ensures RoundAt(input, pos, have, limit).consumed == pos + |z + CRLF + CRLF|
  {
    var end := FirstCrlf(input, pos).value;
    z := input[pos..end];
    AtCrlf(input, end);
    AtCrlf(input, end + 2);
    AtConcat(input, pos, z, CRLF);
    AtConcat(input, pos, z + CRLF, CRLF);
  }

  lemma WireAt(input: bytes, cs: seq<Chunk>, z: bytes)
    ensures At(input, 0, Wire(cs, z))
            <==> At(input, 0, ChunksBytes(cs)) && At(input, |ChunksBytes(cs)|, z + CRLF + CRLF)
  {
    assert Wire(cs, z) == ChunksBytes(cs) + (z + CRLF + CRLF);
    AtConcat(input, 0, ChunksBytes(cs), z + CRLF + CRLF);
  }

  lemma AcceptedIsEncoded(input: bytes, limit: nat, body: bytes, consumed: nat)
    requires Decode(input, limit) == Complete(body, consumed)
    ensures consumed <= |input| && |body| <= limit && Encodes(input[..consumed], body)
  {
    var cs := RunOfChunks(input, limit, []);
    OutcomeAfterRun(input, limit, cs);
    var z := LastIsTerminator(input, |ChunksBytes(cs)|, |Payload(cs)|, limit);
    WireAt(input, cs, z);
    AtIsSlice(input, 0, Wire(cs, z));
    assert consumed == |Wire(cs, z)|;
    assert input[0..consumed] == input[..consumed];
  }

  lemma EncodedIsAccepted(input: bytes, limit: nat, cs: seq<Chunk>, z: bytes)
    requires AreChunks(cs) && IsLastSize(z) && |Payload(cs)| <= limit && Wire(cs, z) <= input
    ensures Decode(input, limit) == Complete(Payload(cs), |Wire(cs, z)|)
  {
    hide RoundAt;
    hide DecodeFrom;
    AtPrefix(input, Wire(cs, z));
    WireAt(input, cs, z);
    RoundReadsLast(input, |ChunksBytes(cs)|, z, |Payload(cs)|, limit);
    OutcomeAfterRun(input, limit, cs);
  }

  /** The decoder accepts exactly the grammar, within the limit, whatever follows. */
  lemma ChunkedIsExact(input: bytes, limit: nat, body: bytes, consumed: nat)
    ensures Decode(input, limit) == Complete(body, consumed)
            <==> consumed <= |input| && |body| <= limit && Encodes(input[..consumed], body)
  {
    if Decode(input, limit) == Complete(body, consumed) {
      AcceptedIsEncoded(input, limit, body, consumed);
    }
    if consumed <= |input| && |body| <= limit && Encodes(input[..consumed], body) {
      var cs, z :| AreChunks(cs) && IsLastSize(z) && input[..consumed] == Wire(cs, z) && body == Payload(cs);
      EncodedIsAccepted(input, limit, cs, z);
    }
  }

  /** No stream starts with two different chunked bodies: the boundary is unambiguous. */
  lemma BoundaryIsUnique(stream: bytes, m: nat, a: bytes, n: nat, b: bytes)
    requires m <= |stream| && n <= |stream|
    requires Encodes(stream[..m], a) && Encodes(stream[..n], b)
    ensures m == n && a == b
  {
    var limit := |a| + |b|;
    ChunkedIsExact(stream, limit, a, m);
    ChunkedIsExact(stream, limit, b, n);
  }

  // ----- stability -----

  lemma RoundStable(s: bytes, t: bytes, pos: nat, have: nat, limit: nat)
    requires s <= t && pos <= |s| && !RoundAt(s, pos, have, limit).Starved?
    ensures RoundAt(t, pos, have, limit) == RoundAt(s, pos, have, limit)
  {
    FirstCrlfStable(s, t, pos);
    var end := FirstCrlf(s, pos).value;
    assert s[pos..end] == t[pos..end];
    if FirstCrlf(s, end + 2).Some? {
      FirstCrlfStable(s, t, end + 2);
    }
  }

  lemma {:induction false} DecodeFromStable(s: bytes, t: bytes, pos: nat, body: bytes, limit: nat)
    requires s <= t && pos <= |s| && DecodeFrom(s, pos, body, limit) != NeedMore
    ensures DecodeFrom(t, pos, body, limit) == DecodeFrom(s, pos, body, limit)
    decreases |s| - pos
  {
    hide RoundAt;
    hide DecodeFrom;
    DecodeUnfolds(s, pos, body, limit);
    DecodeUnfolds(t, pos, body, limit);
    RoundStable(s, t, pos, |body|, limit);
    var r := RoundAt(s, pos, |body|, limit);
    if r.Data? {
      assert s[r.start..r.start + r.size] == t[r.start..r.start + r.size];
      DecodeFromStable(s, t, r.start + r.size + 2, body + s[r.start..r.start + r.size], limit);
    }
  }

  /** Once the decoder has decided on a prefix, more input never changes the answer. */
  lemma DecodeIsStable(s: bytes, t: bytes, limit: nat)
    requires s <= t && Decode(s, limit) != NeedMore
    ensures Decode(t, limit) == Decode(s, limit)
  {
    DecodeFromStable(s, t, 0, [], limit);
  }

  /** A complete body is decided by its own bytes and by no fewer of them. */
  lemma CompleteIsTight(s: bytes, limit: nat, n: nat)
    requires Decode(s, limit).Complete? && n <= |s|
    ensures Decode(s[..n], limit) == if n < Decode(s, limit).consumed then NeedMore else Decode(s, limit)
  {
    var d := Decode(s, limit);
    ChunkedIsExact(s, limit, d.body, d.consumed);
    if n < d.consumed {
      if Decode(s[..n], limit) != NeedMore {
        DecodeIsStable(s[..n], s, limit);
        ChunkedIsExact(s[..n], limit, d.body, d.consumed);
      }
    } else {
      assert s[..n][..d.consumed] == s[..d.consumed];
      ChunkedIsExact(s[..n], limit, d.body, d.consumed);
    }
  }

  /** A body accepted under one limit is accepted under every limit it fits. */
  lemma CompleteUnderLimits(s: bytes, limit: nat, other: nat)
    requires Decode(s, limit).Complete?
    ensures Decode(s, other) == Decode(s, limit) <==> |Decode(s, limit).body| <= other
  {
    var d := Decode(s, limit);
    ChunkedIsExact(s, limit, d.body, d.consumed);
    ChunkedIsExact(s, other, d.body, d.consumed);
  }

  /** The chunks read so far fit the limit, and the next declared size does not. */
  ghost predicate Overruns(input: bytes, limit: nat, cs: seq<Chunk>, size: bytes) {
    AreChunks(cs) && |Payload(cs)| <= limit && IsSizeLine(size)
    && At(input, 0, ChunksBytes(cs)) && At(input, |ChunksBytes(cs)|, size + CRLF)
    && 0 < HexValue(size) && limit < |Payload(cs)| + HexValue(size)
  }

  lemma RoundReadsSize(input: bytes, pos: nat, size: bytes, have: nat, limit: nat)
    requires IsSizeLine(size) && At(input, pos, size + CRLF)
    requires 0 < HexValue(size) && limit < have + HexValue(size)
    ensures RoundAt(input, pos, have, limit) == Fault(BodyTooLarge)
  {
    AtConcat(input, pos, size, CRLF);
    ReadsSizeLine(input, pos, size);
  }

  lemma TooLargeRoundOverruns(input: bytes, limit: nat, cs: seq<Chunk>) returns (size: bytes)
    requires StopsAfter(input, limit, cs)
    requires RoundAt(input, |ChunksBytes(cs)|, |Payload(cs)|, limit) == Fault(BodyTooLarge)
    ensures Overruns(input, limit, cs, size)
  {
    var pos := |ChunksBytes(cs)|;
    var end := FirstCrlf(input, pos).value;
    size := input[pos..end];
    AtCrlf(input, end);
    AtConcat(input, pos, size, CRLF);
  }

  /** Exactly when the decoder refuses a body for its length. */
  lemma TooLargeIsExact(input: bytes, limit: nat)
    ensures Decode(input, limit) == Rejected(BodyTooLarge)
            <==> exists cs, size :: Overruns(input, limit, cs, size)
  {
    hide RoundAt;
    hide DecodeFrom;
    if Decode(input, limit) == Rejected(BodyTooLarge) {
      var cs := RunOfChunks(input, limit, []);
      OutcomeAfterRun(input, limit, cs);
      var size := TooLargeRoundOverruns(input, limit, cs);
    }
    if cs, size :| Overruns(input, limit, cs, size) {
      RoundReadsSize(input, |ChunksBytes(cs)|, size, |Payload(cs)|, limit);
      OutcomeAfterRun(input, limit, cs);
    }
  }

  // ----- progress -----

  /** A round that reads data advances by a size digit, a data byte and two CRLFs at least. */
  lemma RoundsAdvance(input: bytes, pos: nat, have: nat, limit: nat)
    requires pos <= |input| && RoundAt(input, pos, have, limit).Data?
    ensures var r := RoundAt(input, pos, have, limit);
            pos + 6 <= r.start + r.size + 2 <= |input|
  {
    hide HexValue;
  }
}
