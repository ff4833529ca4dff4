/** The chunked decoder on a 64-bit machine, where the sums of sizes wrap around. */
module ChunkedMachine {
  import opened Octets
  import opened Errors
  import opened Chunked

  const WORD: nat := 0x1_0000_0000_0000_0000

  /** No slice is longer than half the address space. */
  const MAX_SLICE: nat := 0x7FFF_FFFF_FFFF_FFFF

  /** A slice whose bounds are out of order or out of range stops the program. */
  datatype MachineRound = Normal(round: Round) | Panics

  datatype MachineOutcome = Answer(outcome: Outcome) | Panicked

  /** One round, with both sums wrapping at 64 bits. */
  function MachineRoundAt(input: bytes, pos: nat, have: nat, limit: nat): (r: MachineRound)
    requires pos <= |input|
    ensures r.Normal? && r.round.Data? ==> pos <= r.round.start && r.round.start + r.round.size + 2 <= |input|
  {
    match FirstCrlf(input, pos)
    case None => Normal(Starved)
    case Some(end) =>
      if ';' in input[pos..end] then Normal(Fault(BadChunk))
      else
        match ParseChunkSize(input[pos..end])
        case None => Normal(Fault(BadChunk))
        case Some(size) =>
          if size == 0 then
            match FirstCrlf(input, end + 2)
            case None => Normal(Starved)
            case Some(trailer) => Normal(if trailer == end + 2 then Last(end + 4) else Fault(BadChunk))
          else
            DataRound(input, end + 2, size, have, limit)
  }

  function DataRound(input: bytes, start: nat, size: nat, have: nat, limit: nat): (r: MachineRound)
    requires start <= |input|
    ensures r.Normal? && r.round.Data? ==> start == r.round.start && r.round.start + r.round.size + 2 <= |input|
  {
    var lo, hi := (start + size) % WORD, (start + size + 2) % WORD;
    if (have + size) % WORD > limit then Normal(Fault(BodyTooLarge))
    else if |input| < hi then Normal(Starved)
    else if lo > hi then Panics
    else if !CrlfAt(input, lo) then Normal(Fault(BadChunk))
    else if start > lo then Panics
    else Normal(Data(start, lo - start))
  }

  function MachineFrom(input: bytes, pos: nat, body: bytes, limit: nat): MachineOutcome
    requires pos <= |input|
    decreases |input| - pos
  {
    match MachineRoundAt(input, pos, |body|, limit)
    case Panics => Panicked
    case Normal(Starved) => Answer(NeedMore)
    case Normal(Fault(e)) => Answer(Rejected(e))
    case Normal(Last(consumed)) => Answer(Complete(body, consumed))
    case Normal(Data(start, size)) =>
      MachineFrom(input, start + size + 2, body + input[start..start + size], limit)
  }

  function MachineDecode(input: bytes, limit: nat): MachineOutcome {
    MachineFrom(input, 0, [], limit)
  }

  lemma MachineUnfolds(input: bytes, pos: nat, body: bytes, limit: nat)
    requires pos <= |input|
    ensures MachineFrom(input, pos, body, limit)
            == match MachineRoundAt(input, pos, |body|, limit)
               case Panics => Panicked
               case Normal(Starved) => Answer(NeedMore)
               case Normal(Fault(e)) => Answer(Rejected(e))
               case Normal(Last(consumed)) => Answer(Complete(body, consumed))
               case Normal(Data(start, size)) =>
                 MachineFrom(input, start + size + 2, body + input[start..start + size], limit)
  {
  }

  /** The size that the round at `pos` declares, if it gets as far as adding it. */
  function Declared(input: bytes, pos: nat): Option<nat>
    requires pos <= |input|
  {
    match FirstCrlf(input, pos)
    case None => None
    case Some(end) => if ';' in input[pos..end] then None else ParseChunkSize(input[pos..end])
  }

  /** A size within the limit whose end does not fit 64 bits, when the machine notices. It
      does not when the largest size line of all ends the input. */
  predicate Slips(input: bytes, start: nat, size: nat, have: nat, limit: nat) {
    have + size <= limit && WORD <= start + size + 2 && !(start == |input| && size == WORD - 1)
  }

  /** Sizes that leave room in 64 bits are treated as in the unbounded integers. */
  lemma RoundsAgree(input: bytes, pos: nat, have: nat, limit: nat)
    requires pos <= |input| <= MAX_SLICE && limit < WORD
    requires Declared(input, pos).Some? ==>
               && have + Declared(input, pos).value < WORD
               && !Slips(input, FirstCrlf(input, pos).value + 2, Declared(input, pos).value, have, limit)
    ensures MachineRoundAt(input, pos, have, limit) == Normal(RoundAt(input, pos, have, limit))
  {
    hide HexValue;
    if Declared(input, pos).Some? && Declared(input, pos).value != 0 {
      var size, start := Declared(input, pos).value, FirstCrlf(input, pos).value + 2;
      assert (have + size) % WORD == have + size;
      if have + size <= limit {
        if start + size + 2 < WORD {
          assert (start + size) % WORD == start + size && (start + size + 2) % WORD == start + size + 2;
        } else {
          assert size == WORD - 1 && start == |input|;
          assert (start + size + 2) % WORD == start + 1;
        }
      }
    }
  }

  /** A sum that wraps is never refused, and the round that meets it never reads data. */
  lemma WrappedRound(input: bytes, start: nat, size: nat, have: nat, limit: nat)
    requires have < start <= |input| <= MAX_SLICE && limit < WORD
    requires have <= limit && size < WORD <= have + size
    ensures DataRound(input, start, size, have, limit) in {Normal(Starved), Normal(Fault(BadChunk)), Panics}
  {
    assert (have + size) % WORD == have + size - WORD;
    assert (start + size) % WORD == start + size - WORD;
    assert (start + size + 2) % WORD == start + size + 2 - WORD;
  }

  /** An end that wraps is never waited for. */
  lemma SlippedRound(input: bytes, start: nat, size: nat, have: nat, limit: nat)
    requires 2 <= start <= |input| <= MAX_SLICE && size < WORD && limit < WORD
    requires Slips(input, start, size, have, limit)
    ensures DataRound(input, start, size, have, limit) in {Normal(Fault(BadChunk)), Panics}
  {
    assert (have + size) % WORD == have + size;
    assert (start + size + 2) % WORD == start + size + 2 - WORD;
    if start + size < WORD {
      assert (start + size) % WORD == start + size;
    } else {
      assert (start + size) % WORD == start + size - WORD;
    }
  }

  /** A declared size that does not fit 64 bits together with the chunks before it. */
  ghost predicate Wraps(input: bytes, limit: nat, cs: seq<Chunk>, size: bytes) {
    Overruns(input, limit, cs, size) && WORD <= |Payload(cs)| + HexValue(size)
  }

  /** A declared size whose end does not fit 64 bits together with the bytes before it. */
  ghost predicate EndWraps(input: bytes, limit: nat, cs: seq<Chunk>, size: bytes) {
    AreChunks(cs) && |Payload(cs)| <= limit && IsSizeLine(size)
    && At(input, 0, ChunksBytes(cs)) && At(input, |ChunksBytes(cs)|, size + CRLF)
    && Slips(input, |ChunksBytes(cs)| + |size| + 2, HexValue(size), |Payload(cs)|, limit)
  }

  /** Data that ends within 64 bits is read in either arithmetic, and no other is read by the
      machine. */
  lemma DataRoundsAgree(input: bytes, pos: nat, have: nat, limit: nat, start: nat, size: nat)
    requires have <= pos <= |input|
    ensures MachineRoundAt(input, pos, have, limit) == Normal(Data(start, size))
            <==> RoundAt(input, pos, have, limit) == Data(start, size) && start + size + 2 < WORD
  {
    hide HexValue;
    if Declared(input, pos).Some? && Declared(input, pos).value != 0 {
      var end := FirstCrlf(input, pos).value;
      SizeLineFits(input[pos..end]);
      SumsInWords(end + 2, Declared(input, pos).value, have);
    }
  }

  /** The sums of a size below 2^64: exact if the end fits, and otherwise out of order. */
  lemma SumsInWords(start: nat, size: nat, have: nat)
    requires have < start
    ensures start + size + 2 < WORD ==>
              (start + size) % WORD == start + size && (start + size + 2) % WORD == start + size + 2
              && (have + size) % WORD == have + size
    ensures size < WORD <= start + size + 2 ==>
              (start + size) % WORD > (start + size + 2) % WORD || (start + size) % WORD < start
  {
  }

  lemma {:induction false} MachineThroughChunks(input: bytes, pos: nat, body: bytes, limit: nat, cs: seq<Chunk>)
    requires |body| <= pos && (cs == [] || pos + |ChunksBytes(cs)| < WORD)
    requires AreChunks(cs) && |body| + |Payload(cs)| <= limit && At(input, pos, ChunksBytes(cs))
    ensures MachineFrom(input, pos, body, limit)
            == MachineFrom(input, pos + |ChunksBytes(cs)|, body + Payload(cs), limit)
    decreases |cs|
  {
    hide RoundAt;
    hide MachineRoundAt;
    hide MachineFrom;
    hide ChunkBytes;
    if cs == [] {
      assert body + Payload(cs) == body;
    } else {
      var mid, had := pos + |ChunkBytes(cs[0])|, body + cs[0].data;
      assert At(input, pos, ChunkBytes(cs[0])) && At(input, mid, ChunksBytes(cs[1..])) by {
        AtConcat(input, pos, ChunkBytes(cs[0]), ChunksBytes(cs[1..]));
      }
      assert had + Payload(cs[1..]) == body + Payload(cs);
      assert mid + |ChunksBytes(cs[1..])| == pos + |ChunksBytes(cs)|;
      ChunkOutweighsData(cs[0]);
      MachineThroughChunk(input, pos, body, limit, cs[0]);
      MachineThroughChunks(input, mid, had, limit, cs[1..]);
    }
  }

  lemma MachineThroughChunk(input: bytes, pos: nat, body: bytes, limit: nat, c: Chunk)
    requires |body| <= pos && pos + |ChunkBytes(c)| < WORD
    requires IsChunk(c) && |body| + |c.data| <= limit && At(input, pos, ChunkBytes(c))
    ensures MachineFrom(input, pos, body, limit) == MachineFrom(input, pos + |ChunkBytes(c)|, body + c.data, limit)
  {
    hide RoundAt;
    hide MachineRoundAt;
    hide MachineFrom;
    RoundReadsChunk(input, pos, c, |body|, limit);
    DataRoundsAgree(input, pos, |body|, limit, pos + |c.size| + 2, |c.data|);
    MachineUnfolds(input, pos, body, limit);
  }

  lemma ChunkOutweighsData(c: Chunk)
    ensures |c.data| <= |ChunkBytes(c)|
  {
  }

  lemma {:induction false} ChunksOutweighPayload(cs: seq<Chunk>)
    ensures |Payload(cs)| <= |ChunksBytes(cs)|
  {
    if cs != [] {
      ChunksOutweighPayload(cs[1..]);
    }
  }

  lemma MachineAfterRun(input: bytes, limit: nat, cs: seq<Chunk>)
    requires |input| <= MAX_SLICE && limit < WORD
    requires StopsAfter(input, limit, cs)
    ensures MachineDecode(input, limit) == MachineFrom(input, |ChunksBytes(cs)|, Payload(cs), limit)
  {
    hide RoundAt;
    hide MachineFrom;
    MachineThroughChunks(input, 0, [], limit, cs);
    assert [] + Payload(cs) == Payload(cs);
  }

  lemma SizeLineStands(input: bytes, pos: nat, size: bytes)
    requires IsSizeLine(size) && At(input, pos, size + CRLF)
    ensures FirstCrlf(input, pos) == Some(pos + |size|) && pos + |size| + 2 <= |input|
    ensures ';' !in input[pos..pos + |size|]
    ensures ParseChunkSize(input[pos..pos + |size|]) == Some(HexValue(size))
  {
    AtConcat(input, pos, size, CRLF);
    ReadsSizeLine(input, pos, size);
    hide HexValue;
  }

  lemma MachineReadsParsed(input: bytes, pos: nat, end: nat, size: nat, have: nat, limit: nat)
    requires pos <= |input| && FirstCrlf(input, pos) == Some(end) && ';' !in input[pos..end]
    requires ParseChunkSize(input[pos..end]) == Some(size) && size > 0
    ensures MachineRoundAt(input, pos, have, limit) == DataRound(input, end + 2, size, have, limit)
  {
    hide DataRound;
    hide ParseChunkSize;
  }

  /** A size line that is not zero leads to the sums. */
  lemma MachineReadsSize(input: bytes, pos: nat, size: bytes, n: nat, have: nat, limit: nat)
    requires IsSizeLine(size) && At(input, pos, size + CRLF) && 0 < n == HexValue(size)
    ensures pos + |size| + 2 <= |input|
    ensures MachineRoundAt(input, pos, have, limit) == DataRound(input, pos + |size| + 2, n, have, limit)
  {
    hide At;
    hide HexValue;
    hide ParseChunkSize;
    hide IsSizeLine;
    hide DataRound;
    hide MachineRoundAt;
    SizeLineStands(input, pos, size);
    MachineReadsParsed(input, pos, pos + |size|, n, have, limit);
  }

  lemma RoundWraps(input: bytes, pos: nat, size: bytes, have: nat, limit: nat)
    requires |input| <= MAX_SLICE && limit < WORD && have <= pos && have <= limit
    requires IsSizeLine(size) && At(input, pos, size + CRLF) && WORD <= have + HexValue(size)
    ensures MachineRoundAt(input, pos, have, limit) in {Normal(Starved), Normal(Fault(BadChunk)), Panics}
  {
    SizeLineFits(size);
    hide HexValue;
    hide MachineRoundAt;
    hide DataRound;
    MachineReadsSize(input, pos, size, HexValue(size), have, limit);
    WrappedRound(input, pos + |size| + 2, HexValue(size), have, limit);
  }

  lemma DisagreesWhenWrapping(input: bytes, limit: nat, cs: seq<Chunk>, size: bytes)
    requires |input| <= MAX_SLICE && limit < WORD && Wraps(input, limit, cs, size)
    ensures Decode(input, limit) == Rejected(BodyTooLarge)
    ensures MachineDecode(input, limit) in {Answer(NeedMore), Answer(Rejected(BadChunk)), Panicked}
  {
    hide RoundAt;
    hide DecodeFrom;
    hide MachineFrom;
    hide MachineRoundAt;
    var pos := |ChunksBytes(cs)|;
    RoundReadsSize(input, pos, size, |Payload(cs)|, limit);
    OutcomeAfterRun(input, limit, cs);
    MachineAfterRun(input, limit, cs);
    ChunksOutweighPayload(cs);
    RoundWraps(input, pos, size, |Payload(cs)|, limit);
    MachineUnfolds(input, pos, Payload(cs), limit);
  }

  lemma RoundSlips(input: bytes, pos: nat, size: bytes, have: nat, limit: nat)
    requires |input| <= MAX_SLICE && limit < WORD
    requires IsSizeLine(size) && At(input, pos, size + CRLF) && 0 < HexValue(size)
    requires Slips(input, pos + |size| + 2, HexValue(size), have, limit)
    ensures MachineRoundAt(input, pos, have, limit) in {Normal(Fault(BadChunk)), Panics}
  {
    SizeLineFits(size);
    hide HexValue;
    hide MachineRoundAt;
    hide DataRound;
    hide Slips;
    MachineReadsSize(input, pos, size, HexValue(size), have, limit);
    SlippedRound(input, pos + |size| + 2, HexValue(size), have, limit);
  }

  /** Ends beyond 2^64 lie beyond any slice. */
  lemma SlipsStarve(input: bytes, pos: nat, size: bytes, have: nat, limit: nat)
    requires |input| <= MAX_SLICE && IsSizeLine(size) && At(input, pos, size + CRLF)
    requires Slips(input, pos + |size| + 2, HexValue(size), have, limit)
    ensures 0 < HexValue(size) && |input| < pos + |size| + 2 + HexValue(size) + 2
  {
    AtConcat(input, pos, size, CRLF);
    hide HexValue;
  }

  lemma RoundStarves(input: bytes, pos: nat, size: bytes, have: nat, limit: nat)
    requires IsSizeLine(size) && At(input, pos, size + CRLF) && 0 < HexValue(size)
    requires have + HexValue(size) <= limit && |input| < pos + |size| + 2 + HexValue(size) + 2
    ensures RoundAt(input, pos, have, limit) == Starved
  {
    hide At;
    hide HexValue;
    hide ParseChunkSize;
    hide IsSizeLine;
    SizeLineStands(input, pos, size);
  }

  lemma DisagreesWhenEndWraps(input: bytes, limit: nat, cs: seq<Chunk>, size: bytes)
    requires |input| <= MAX_SLICE && limit < WORD && EndWraps(input, limit, cs, size)
    ensures Decode(input, limit) == NeedMore
    ensures MachineDecode(input, limit) in {Answer(Rejected(BadChunk)), Panicked}
  {
    hide RoundAt;
    hide DecodeFrom;
    hide MachineFrom;
    hide MachineRoundAt;
    var pos := |ChunksBytes(cs)|;
    SlipsStarve(input, pos, size, |Payload(cs)|, limit);
    RoundStarves(input, pos, size, |Payload(cs)|, limit);
    RoundSlips(input, pos, size, |Payload(cs)|, limit);
    OutcomeAfterRun(input, limit, cs);
    MachineAfterRun(input, limit, cs);
    MachineUnfolds(input, pos, Payload(cs), limit);
  }

  /** The machine computes the unbounded answer exactly when no declared size reaches 2^64 together
      with the chunks read before it, and none that is within the limit ends beyond 2^64 and is
      noticed. The one that is not noticed is the largest size line of all at the end of the
      input: its end wraps, and both answers are to wait for more. */
  lemma MachineAgreesExactly(input: bytes, limit: nat)
    requires |input| <= MAX_SLICE && limit < WORD
    ensures MachineDecode(input, limit) == Answer(Decode(input, limit))
            <==> !exists cs, size :: Wraps(input, limit, cs, size) || EndWraps(input, limit, cs, size)
  {
    hide RoundAt;
    hide DecodeFrom;
    hide MachineFrom;
    hide MachineRoundAt;
    hide Slips;
    if cs, size :| Wraps(input, limit, cs, size) || EndWraps(input, limit, cs, size) {
      if Wraps(input, limit, cs, size) {
        DisagreesWhenWrapping(input, limit, cs, size);
      } else {
        DisagreesWhenEndWraps(input, limit, cs, size);
      }
    } else {
      var cs := RunOfChunks(input, limit, []);
      var pos, have := |ChunksBytes(cs)|, |Payload(cs)|;
      OutcomeAfterRun(input, limit, cs);
      MachineAfterRun(input, limit, cs);
      if Declared(input, pos).Some? {
        var size := DeclaredStands(input, pos);
        assert !Wraps(input, limit, cs, size) && !EndWraps(input, limit, cs, size);
      }
      RoundsAgree(input, pos, have, limit);
      MachineUnfolds(input, pos, Payload(cs), limit);
    }
  }

  /** An input and a limit that together leave room in 64 bits leave only the first sum to wrap. */
  lemma SmallLimitsEndInRange(input: bytes, limit: nat, cs: seq<Chunk>, size: bytes)
    requires |input| + limit + 2 < WORD
    ensures !EndWraps(input, limit, cs, size)
  {
    if EndWraps(input, limit, cs, size) {
      AtConcat(input, |ChunksBytes(cs)|, size, CRLF);
    }
  }

  lemma DeclaredStands(input: bytes, pos: nat) returns (size: bytes)
    requires pos <= |input| && Declared(input, pos).Some?
    ensures IsSizeLine(size) && At(input, pos, size + CRLF) && HexValue(size) == Declared(input, pos).value
    ensures FirstCrlf(input, pos) == Some(pos + |size|)
  {
    var end := FirstCrlf(input, pos).value;
    size := input[pos..end];
    AtCrlf(input, end);
    AtConcat(input, pos, size, CRLF);
  }

  // ----- a stream on which they differ -----

  function Effs(n: nat): bytes {
    if n == 0 then [] else Effs(n - 1) + ['f']
  }

  lemma {:induction false} EffsAreLargest(n: nat)
    ensures |Effs(n)| == n && All(Effs(n), IsHex) && IsOneLine(Effs(n))
    ensures HexValue(Effs(n)) == Pow16(n) - 1
  {
    if n > 0 {
      EffsAreLargest(n - 1);
      assert Effs(n)[..n - 1] == Effs(n - 1);
    }
  }

  /** One byte of data, then a size of 2^64 - 1: too large for any limit, yet the wrapped
      sum is zero and the machine does not refuse it. */
  lemma WrappingStream()
    ensures var input := "1\r\nx\r\n" + Effs(16) + CRLF;
            Decode(input, 8) == Rejected(BodyTooLarge)
            && MachineDecode(input, 8) != Answer(Decode(input, 8))
  {
    hide RoundAt;
    hide DecodeFrom;
    hide MachineFrom;
    var input: bytes := "1\r\nx\r\n" + Effs(16) + CRLF;
    var cs := OneByteChunk();
    EffsAreLargest(16);
    Pow16Of16();
    AtConcat(input, 6, Effs(16), CRLF);
    assert Wraps(input, 8, cs, Effs(16));
    DisagreesWhenWrapping(input, 8, cs, Effs(16));
  }

  lemma OneByteChunk() returns (cs: seq<Chunk>)
    ensures AreChunks(cs) && ChunksBytes(cs) == "1\r\nx\r\n" && Payload(cs) == "x"
  {
    cs := [Chunk("1", "x")];
    assert HexValue("1") == 1 by {
      assert "1"[..0] == "";
    }
    assert cs[1..] == [];
  }
}
