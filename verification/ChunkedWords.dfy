/** The decoder as it is built, with 64-bit sums: what it accepts, when it stops the program, and
    that its decisions are final. */
module ChunkedWords {
  import opened Octets
  import opened Errors
  import opened Chunked
  import opened ChunkedMachine

  // ----- the loop -----

  method DecodeChunked(input: bytes, limit: nat) returns (r: MachineOutcome)
    ensures r == MachineDecode(input, limit)
  {
    hide MachineFrom;
    hide MachineRoundAt;
    hide ParseChunkSize;
    var body: bytes := [];
    var pos := 0;
    while true
      invariant pos <= |input|
      invariant MachineFrom(input, pos, body, limit) == MachineDecode(input, limit)
      decreases |input| - pos
    {
      MachineUnfolds(input, pos, body, limit);
      var found := FirstCrlf(input, pos);
      if found.None? {
        NothingDeclared(input, pos, |body|, limit);
        return Answer(NeedMore);
      }
      var lineEnd := found.value;
      var sizeLine := input[pos..lineEnd];
      var parsed := ParseChunkSize(sizeLine);
      if ';' in sizeLine || parsed.None? {
        NothingDeclared(input, pos, |body|, limit);
        return Answer(Rejected(BadChunk));
      }
      var size := parsed.value;
      if size == 0 {
        ZeroDeclared(input, pos, |body|, limit);
        var trailer := FirstCrlf(input, lineEnd + 2);
        if trailer.None? {
          return Answer(NeedMore);
        }
        return Answer(if trailer.value == lineEnd + 2 then Complete(body, lineEnd + 4) else Rejected(BadChunk));
      }
      MachineReadsParsed(input, pos, lineEnd, size, |body|, limit);
      pos := lineEnd + 2;
      if (|body| + size) % WORD > limit {
        return Answer(Rejected(BodyTooLarge));
      }
      var lo, hi := (pos + size) % WORD, (pos + size + 2) % WORD;
      if |input| < hi {
        return Answer(NeedMore);
      }
      if lo > hi {
        return Panicked;
      }
      WordEnd(pos + size);
      CrlfSlice(input, lo);
      if input[lo..hi] != CRLF {
        return Answer(Rejected(BadChunk));
      }
      if pos > lo {
        return Panicked;
      }
      body := body + input[pos..lo];
      pos := hi;
    }
  }

  lemma CrlfSlice(input: bytes, i: nat)
    requires i + 2 <= |input|
    ensures input[i..i + 2] == CRLF <==> CrlfAt(input, i)
  {
    AtIsSlice(input, i, CRLF);
    AtCrlf(input, i);
  }

  lemma NothingDeclared(input: bytes, pos: nat, have: nat, limit: nat)
    requires pos <= |input| && Declared(input, pos).None?
    ensures MachineRoundAt(input, pos, have, limit)
            == Normal(if FirstCrlf(input, pos).None? then Starved else Fault(BadChunk))
  {
    hide ParseChunkSize;
  }

  lemma ZeroDeclared(input: bytes, pos: nat, have: nat, limit: nat)
    requires pos <= |input| && Declared(input, pos) == Some(0)
    ensures var next := FirstCrlf(input, pos).value + 2;
            MachineRoundAt(input, pos, have, limit)
            == Normal(match FirstCrlf(input, next)
                      case None => Starved
                      case Some(trailer) => if trailer == next then Last(next + 2) else Fault(BadChunk))
  {
    hide ParseChunkSize;
  }

  // ----- decisions are final -----

  lemma DataRoundStable(s: bytes, t: bytes, start: nat, size: nat, have: nat, limit: nat)
    requires s <= t && start <= |s| && DataRound(s, start, size, have, limit) != Normal(Starved)
    ensures DataRound(t, start, size, have, limit) == DataRound(s, start, size, have, limit)
  {
    var lo, hi := (start + size) % WORD, (start + size + 2) % WORD;
    if lo <= hi {
      WordEnd(start + size);
    }
  }

  lemma WordEnd(n: nat)
    ensures n % WORD <= (n + 2) % WORD ==> (n + 2) % WORD == n % WORD + 2
  {
  }

  lemma MachineRoundStable(s: bytes, t: bytes, pos: nat, have: nat, limit: nat)
    requires s <= t && pos <= |s| && MachineRoundAt(s, pos, have, limit) != Normal(Starved)
    ensures MachineRoundAt(t, pos, have, limit) == MachineRoundAt(s, pos, have, limit)
  {
    hide DataRound;
    hide ParseChunkSize;
    FirstCrlfStable(s, t, pos);
    var end := FirstCrlf(s, pos).value;
    assert s[pos..end] == t[pos..end];
    if FirstCrlf(s, end + 2).Some? {
      FirstCrlfStable(s, t, end + 2);
    }
    if Declared(s, pos).Some? && Declared(s, pos).value > 0 {
      DataRoundStable(s, t, end + 2, Declared(s, pos).value, have, limit);
    }
  }

  lemma {:induction false} MachineFromStable(s: bytes, t: bytes, pos: nat, body: bytes, limit: nat)
    requires s <= t && pos <= |s| && MachineFrom(s, pos, body, limit) != Answer(NeedMore)
    ensures MachineFrom(t, pos, body, limit) == MachineFrom(s, pos, body, limit)
    decreases |s| - pos
  {
    hide MachineRoundAt;
    hide MachineFrom;
    MachineUnfolds(s, pos, body, limit);
    MachineUnfolds(t, pos, body, limit);
    MachineRoundStable(s, t, pos, |body|, limit);
    match MachineRoundAt(s, pos, |body|, limit)
    case Normal(Data(start, size)) =>
      assert s[start..start + size] == t[start..start + size];
      MachineFromStable(s, t, start + size + 2, body + s[start..start + size], limit);
    case _ =>
  }

  /** Once the machine has decided on a prefix, or stopped, more input changes nothing. */
  lemma MachineIsStable(s: bytes, t: bytes, limit: nat)
    requires s <= t && MachineDecode(s, limit) != Answer(NeedMore)
    ensures MachineDecode(t, limit) == MachineDecode(s, limit)
  {
    MachineFromStable(s, t, 0, [], limit);
  }

  // ----- what is accepted -----

  /** One chunked body whose chunks end within 64 bits. */
  ghost predicate EncodesInWords(wire: bytes, body: bytes) {
    exists cs, z :: AreChunks(cs) && IsLastSize(z) && |ChunksBytes(cs)| < WORD
                    && wire == Wire(cs, z) && body == Payload(cs)
  }

  lemma LastRoundsAgree(input: bytes, pos: nat, have: nat, limit: nat, n: nat)
    requires pos <= |input|
    ensures MachineRoundAt(input, pos, have, limit) == Normal(Last(n)) <==> RoundAt(input, pos, have, limit) == Last(n)
  {
    hide HexValue;
  }

  /** The run of the machine up to an acceptance reads chunks of the grammar. */
  lemma {:induction false} MachineRunOfChunks(input: bytes, limit: nat, done: seq<Chunk>, body: bytes, n: nat)
      returns (cs: seq<Chunk>, z: bytes)
    requires AreChunks(done) && |Payload(done)| <= limit && At(input, 0, ChunksBytes(done))
    requires |ChunksBytes(done)| < WORD
    requires MachineFrom(input, |ChunksBytes(done)|, Payload(done), limit) == Answer(Complete(body, n))
    ensures AreChunks(cs) && |Payload(cs)| <= limit && At(input, 0, Wire(cs, z)) && |ChunksBytes(cs)| < WORD
    ensures IsLastSize(z) && body == Payload(cs) && n == |Wire(cs, z)|
    decreases |input| - |ChunksBytes(done)|
  {
    hide RoundAt;
    hide MachineRoundAt;
    hide MachineFrom;
    var pos, have := |ChunksBytes(done)|, |Payload(done)|;
    ChunksOutweighPayload(done);
    MachineUnfolds(input, pos, Payload(done), limit);
    match MachineRoundAt(input, pos, have, limit)
    case Normal(Data(start, size)) =>
      DataRoundsAgree(input, pos, have, limit, start, size);
      var c := RoundIsChunk(input, pos, have, limit);
      RoundReadsChunk(input, pos, c, have, limit);
      ChunksAppend(done, c);
      AtConcat(input, 0, ChunksBytes(done), ChunkBytes(c));
      cs, z := MachineRunOfChunks(input, limit, done + [c], body, n);
    case Normal(Last(m)) =>
      LastRoundsAgree(input, pos, have, limit, m);
      cs := done;
      z := LastIsTerminator(input, pos, have, limit);
      WireAt(input, cs, z);
    case _ =>
  }

  lemma MachineAcceptsWords(input: bytes, limit: nat, cs: seq<Chunk>, z: bytes)
    requires AreChunks(cs) && IsLastSize(z) && |Payload(cs)| <= limit && Wire(cs, z) <= input
    requires |ChunksBytes(cs)| < WORD
    ensures MachineDecode(input, limit) == Answer(Complete(Payload(cs), |Wire(cs, z)|))
  {
    hide RoundAt;
    hide MachineRoundAt;
    hide MachineFrom;
    AtPrefix(input, Wire(cs, z));
    WireAt(input, cs, z);
    var pos := |ChunksBytes(cs)|;
    RoundReadsLast(input, pos, z, |Payload(cs)|, limit);
    LastRoundsAgree(input, pos, |Payload(cs)|, limit, pos + |z| + 4);
    MachineThroughChunks(input, 0, [], limit, cs);
    assert [] + Payload(cs) == Payload(cs);
    MachineUnfolds(input, pos, Payload(cs), limit);
  }

  /** The machine accepts exactly the grammar, within the limit and within 64 bits. */
  lemma MachineAcceptsExactly(input: bytes, limit: nat, body: bytes, consumed: nat)
    ensures MachineDecode(input, limit) == Answer(Complete(body, consumed))
            <==> consumed <= |input| && |body| <= limit && EncodesInWords(input[..consumed], body)
  {
    hide MachineFrom;
    if MachineDecode(input, limit) == Answer(Complete(body, consumed)) {
      var cs, z := MachineRunOfChunks(input, limit, [], body, consumed);
      AtIsSlice(input, 0, Wire(cs, z));
      assert input[0..consumed] == input[..consumed];
    }
    if consumed <= |input| && |body| <= limit && EncodesInWords(input[..consumed], body) {
      var cs, z :| AreChunks(cs) && IsLastSize(z) && |ChunksBytes(cs)| < WORD
                   && input[..consumed] == Wire(cs, z) && body == Payload(cs);
      MachineAcceptsWords(input, limit, cs, z);
    }
  }

  /** What the machine accepts is accepted in the unbounded integers, and conversely when the
      body ends below 2^64: no input on which a sum wraps is ever accepted. */
  lemma MachineAcceptsAsDecoded(input: bytes, limit: nat, body: bytes, consumed: nat)
    ensures MachineDecode(input, limit) == Answer(Complete(body, consumed))
            ==> Decode(input, limit) == Complete(body, consumed)
    ensures consumed < WORD && Decode(input, limit) == Complete(body, consumed)
            ==> MachineDecode(input, limit) == Answer(Complete(body, consumed))
  {
    hide Decode;
    hide MachineDecode;
    MachineAcceptsExactly(input, limit, body, consumed);
    ChunkedIsExact(input, limit, body, consumed);
    if consumed < WORD && Decode(input, limit) == Complete(body, consumed) {
      var cs, z :| AreChunks(cs) && IsLastSize(z) && input[..consumed] == Wire(cs, z) && body == Payload(cs);
      assert |ChunksBytes(cs)| < |Wire(cs, z)| == consumed;
    }
  }

  /** A body that the machine accepts is decided by its own bytes and by no fewer of them. */
  lemma MachineIsTight(s: bytes, limit: nat, n: nat)
    requires MachineDecode(s, limit).Answer? && MachineDecode(s, limit).outcome.Complete? && n <= |s|
    ensures MachineDecode(s[..n], limit)
            == if n < MachineDecode(s, limit).outcome.consumed then Answer(NeedMore) else MachineDecode(s, limit)
  {
    hide MachineDecode;
    hide EncodesInWords;
    var d := MachineDecode(s, limit).outcome;
    MachineAcceptsExactly(s, limit, d.body, d.consumed);
    MachineAcceptsExactly(s[..n], limit, d.body, d.consumed);
    if n < d.consumed {
      if MachineDecode(s[..n], limit) != Answer(NeedMore) {
        MachineIsStable(s[..n], s, limit);
      }
    } else {
      assert s[..n][..d.consumed] == s[..d.consumed];
    }
  }

  // ----- when the program stops -----

  /** The sum with the body passes the limit, wrapped or not, and the end of the data wraps: either
      between its two bounds, or to an earlier CRLF. */
  predicate Runaway(input: bytes, start: nat, size: nat, have: nat, limit: nat) {
    (have + size <= limit || WORD <= have + size) && WORD <= start + size + 2
    && (start + size < WORD || CrlfAt(input, start + size - WORD))
  }

  /** After chunks within the limit stands the line of a size that runs away. */
  ghost predicate RunsAway(input: bytes, limit: nat, cs: seq<Chunk>, size: bytes) {
    AreChunks(cs) && |Payload(cs)| <= limit && IsSizeLine(size)
    && At(input, 0, ChunksBytes(cs)) && At(input, |ChunksBytes(cs)|, size + CRLF)
    && Runaway(input, |ChunksBytes(cs)| + |size| + 2, HexValue(size), |Payload(cs)|, limit)
  }

  lemma PanicsExactly(input: bytes, start: nat, size: nat, have: nat, limit: nat)
    requires 2 <= start <= |input| <= MAX_SLICE && size < WORD && have < start && have <= limit
    ensures DataRound(input, start, size, have, limit) == Panics <==> Runaway(input, start, size, have, limit)
  {
    if start + size + 2 < WORD {
      SumsInWords(start, size, have);
    } else {
      assert (start + size + 2) % WORD == start + size + 2 - WORD;
      if start + size < WORD {
        assert (start + size) % WORD == start + size;
      } else {
        assert (start + size) % WORD == start + size - WORD;
      }
      if have + size < WORD {
        assert (have + size) % WORD == have + size;
      } else {
        assert (have + size) % WORD == have + size - WORD;
      }
    }
  }

  /** The run of the machine up to a stop reads chunks of the grammar. */
  lemma {:induction false} MachineRunToPanic(input: bytes, limit: nat, done: seq<Chunk>)
      returns (cs: seq<Chunk>, size: bytes)
    requires AreChunks(done) && |Payload(done)| <= limit && At(input, 0, ChunksBytes(done))
    requires |input| <= MAX_SLICE
    requires MachineFrom(input, |ChunksBytes(done)|, Payload(done), limit) == Panicked
    ensures RunsAway(input, limit, cs, size)
    decreases |input| - |ChunksBytes(done)|
  {
    hide RoundAt;
    hide MachineRoundAt;
    hide MachineFrom;
    hide Runaway;
    var pos, have := |ChunksBytes(done)|, |Payload(done)|;
    ChunksOutweighPayload(done);
    MachineUnfolds(input, pos, Payload(done), limit);
    match MachineRoundAt(input, pos, have, limit)
    case Normal(Data(start, n)) =>
      DataRoundsAgree(input, pos, have, limit, start, n);
      var c := RoundIsChunk(input, pos, have, limit);
      RoundReadsChunk(input, pos, c, have, limit);
      ChunksAppend(done, c);
      AtConcat(input, 0, ChunksBytes(done), ChunkBytes(c));
      cs, size := MachineRunToPanic(input, limit, done + [c]);
    case Panics =>
      cs := done;
      size := PanicReadsSize(input, pos, have, limit);
    case _ =>
  }

  lemma PanicReadsSize(input: bytes, pos: nat, have: nat, limit: nat) returns (size: bytes)
    requires have <= pos <= |input| <= MAX_SLICE && have <= limit
    requires MachineRoundAt(input, pos, have, limit) == Panics
    ensures IsSizeLine(size) && At(input, pos, size + CRLF)
    ensures Runaway(input, pos + |size| + 2, HexValue(size), have, limit)
  {
    hide DataRound;
    hide Runaway;
    size := DeclaredStands(input, pos);
    SizeLineFits(size);
    hide HexValue;
    AtConcat(input, pos, size, CRLF);
    PanicsExactly(input, pos + |size| + 2, HexValue(size), have, limit);
  }

  /** Exactly when the program stops: after chunks within the limit stands the line of a size
      that runs away. */
  lemma MachinePanicsExactly(input: bytes, limit: nat)
    requires |input| <= MAX_SLICE
    ensures MachineDecode(input, limit) == Panicked <==> exists cs, size :: RunsAway(input, limit, cs, size)
  {
    hide MachineFrom;
    hide MachineRoundAt;
    hide RoundAt;
    if MachineDecode(input, limit) == Panicked {
      var cs, size := MachineRunToPanic(input, limit, []);
    }
    if cs, size :| RunsAway(input, limit, cs, size) {
      RunawayPanics(input, limit, cs, size);
    }
  }

  lemma RunawayPanics(input: bytes, limit: nat, cs: seq<Chunk>, size: bytes)
    requires |input| <= MAX_SLICE && RunsAway(input, limit, cs, size)
    ensures MachineDecode(input, limit) == Panicked
  {
    var pos, have, n := |ChunksBytes(cs)|, |Payload(cs)|, HexValue(size);
    hide At;
    hide IsSizeLine;
    hide HexValue;
    hide Runaway;
    hide DataRound;
    hide MachineFrom;
    hide MachineRoundAt;
    ChunksOutweighPayload(cs);
    RunawayRound(input, pos, size, n, have, limit);
    MachineThroughChunks(input, 0, [], limit, cs);
    assert [] + Payload(cs) == Payload(cs);
    MachineUnfolds(input, pos, Payload(cs), limit);
  }

  lemma RunawayRound(input: bytes, pos: nat, size: bytes, n: nat, have: nat, limit: nat)
    requires |input| <= MAX_SLICE && have <= pos && have <= limit
    requires IsSizeLine(size) && At(input, pos, size + CRLF) && n == HexValue(size)
    requires Runaway(input, pos + |size| + 2, n, have, limit)
    ensures pos <= |input| && MachineRoundAt(input, pos, have, limit) == Panics
  {
    hide At;
    hide IsSizeLine;
    hide HexValue;
    hide Runaway;
    hide DataRound;
    hide MachineRoundAt;
    SizeLineFits(size);
    SizeLineStands(input, pos, size);
    RunawayIsLarge(input, pos + |size| + 2, n, have, limit);
    MachineReadsSize(input, pos, size, n, have, limit);
    PanicsExactly(input, pos + |size| + 2, n, have, limit);
  }

  lemma RunawayIsLarge(input: bytes, start: nat, size: nat, have: nat, limit: nat)
    requires start <= |input| <= MAX_SLICE && Runaway(input, start, size, have, limit)
    ensures size > 0
  {
  }

  // ----- a stream that stops the program -----

  /** Two bytes of data, then a size of 2^64 - 2: the sum with the body wraps to zero, and the end
      of the data wraps to an earlier CRLF. */
  lemma PanickingStream()
    ensures MachineDecode("2\r\nxx\r\nfffffffffffffffe\r\n", 8) == Panicked
  {
    hide MachineDecode;
    hide RunsAway;
    var input: bytes := "2\r\nxx\r\n" + (Effs(15) + ['e']) + CRLF;
    NearlyLargest();
    hide Effs;
    PanickingText();
    PanickingSize();
    RunawayPanics(input, 8, [Chunk("2", "xx")], Effs(15) + ['e']);
  }

  lemma PanickingText()
    ensures "2\r\nxx\r\n" + "fffffffffffffffe" + CRLF == "2\r\nxx\r\nfffffffffffffffe\r\n"
  {
  }

  lemma PanickingSize()
    ensures var size := Effs(15) + ['e'];
            RunsAway("2\r\nxx\r\n" + size + CRLF, 8, [Chunk("2", "xx")], size)
  {
    TwoByteChunk();
    NearlyLargest();
    hide HexValue;
    hide Effs;
    var size := Effs(15) + ['e'];
    var input: bytes := "2\r\nxx\r\n" + size + CRLF;
    Assoc("2\r\nxx\r\n", size, CRLF);
    assert |size| == 16 && input[23] == '\r' && input[24] == '\n';
  }

  lemma TwoByteChunk()
    ensures var cs := [Chunk("2", "xx")];
            AreChunks(cs) && ChunksBytes(cs) == "2\r\nxx\r\n" && Payload(cs) == "xx"
  {
    var cs := [Chunk("2", "xx")];
    assert HexValue("2") == 2 by {
      assert "2"[..0] == "";
    }
    assert cs[1..] == [];
  }

  lemma NearlyLargest()
    ensures var size := Effs(15) + ['e'];
            IsSizeLine(size) && HexValue(size) == WORD - 2 && size == "fffffffffffffffe"
  {
    EffsAreLargest(15);
    Pow16Of16();
    var size := Effs(15) + ['e'];
    assert size[..15] == Effs(15);
    assert Pow16(16) == 16 * Pow16(15);
    FifteenEffs();
  }

  lemma FifteenEffs()
    ensures Effs(15) == "fffffffffffffff"
  {
    assert Effs(5) == "fffff";
    assert Effs(10) == "ffffffffff";
  }
}
