/** What `NeedMore` says and does not say: exactly which undecided inputs some continuation
    completes; and exactly which inputs are malformed. */
module Viability {
  import opened Octets
  import opened Errors
  import opened Chunked

  // ----- the condition -----

  /** Text that may end in the first half of a CRLF. */
  function WithoutCr(r: bytes): bytes {
    if r != [] && r[|r| - 1] == '\r' then r[..|r| - 1] else r
  }

  /** What is left over after the chunks, `have` bytes already read, can still become a chunk or
      the end: part of a size line that fits the limit, or a whole one and then no more than its
      data and the first half of the CRLF due after it. A size of zero announces no data, so
      the same clause covers the trailer. */
  predicate IsOpen(r: bytes, have: nat, limit: nat) {
    match FirstCrlf(r, 0)
    case None =>
      var d := WithoutCr(r);
      |d| <= 16 && AllOf(d, IsHex) && have + HexValue(d) <= limit && (d == [] ==> r == [])
    case Some(end) =>
      var size, u := r[..end], r[end + 2..];
      IsSizeLine(size) && have + HexValue(size) <= limit
      && (|u| <= HexValue(size) || (|u| == HexValue(size) + 1 && u[HexValue(size)] == '\r'))
  }

  /** A chunk or, with no data, the end of the body: both have the same shape. */
  ghost predicate IsItem(c: Chunk) {
    IsSizeLine(c.size) && HexValue(c.size) == |c.data|
  }

  // ----- open remainders are the proper prefixes of items -----

  lemma {:induction false} HexPrefix(s: bytes, k: nat)
    requires All(s, IsHex) && k <= |s|
    ensures HexValue(s[..k]) <= HexValue(s)
  {
    if k < |s| {
      HexPrefix(s[..|s| - 1], k);
      assert s[..|s| - 1][..k] == s[..k];
    } else {
      assert s[..k] == s;
    }
  }

  lemma NoCrlfInHex(d: bytes)
    requires All(d, IsHex)
    ensures FirstCrlf(d, 0) == None && FirstCrlf(d + ['\r'], 0) == None
    ensures WithoutCr(d) == d && WithoutCr(d + ['\r']) == d
  {
    var e := d + ['\r'];
    assert forall j :: 0 <= j < |d| ==> IsHex(d[j]) && e[j] == d[j];
    assert e[|d|] == '\r';
  }

  lemma PartOfSizeIsOpen(size: bytes, k: nat, have: nat, limit: nat)
    requires IsSizeLine(size) && k <= |size| && have + HexValue(size) <= limit
    ensures IsOpen(size[..k], have, limit) && IsOpen(size + ['\r'], have, limit)
  {
    var d := size[..k];
    assert forall j :: 0 <= j < k ==> d[j] == size[j];
    HexPrefix(size, k);
    NoCrlfInHex(d);
    NoCrlfInHex(size);
  }

  lemma SizeLineEnds(size: bytes, u: bytes)
    requires IsSizeLine(size)
    ensures var r := size + CRLF + u;
            FirstCrlf(r, 0) == Some(|size|) && r[..|size|] == size && r[|size| + 2..] == u
  {
    hide IsSizeLine;
    hide At;
    hide FirstCrlf;
    var r := size + CRLF + u;
    AtPrefix(r, size + CRLF);
    AtConcat(r, 0, size, CRLF);
    ReadsSizeLine(r, 0, size);
  }

  lemma PartOfDataIsOpen(c: Chunk, u: bytes, have: nat, limit: nat)
    requires IsItem(c) && have + |c.data| <= limit && u <= c.data + CRLF && |u| < |c.data| + 2
    ensures IsOpen(c.size + CRLF + u, have, limit)
  {
    SizeLineEnds(c.size, u);
    if |u| == |c.data| + 1 {
      assert u[|c.data|] == (c.data + CRLF)[|c.data|];
    }
  }

  lemma PrefixOfItemIsOpen(c: Chunk, r: bytes, have: nat, limit: nat)
    requires IsItem(c) && have + |c.data| <= limit && r <= ChunkBytes(c) && |r| < |ChunkBytes(c)|
    ensures IsOpen(r, have, limit)
  {
    hide IsOpen;
    var n, whole := |c.size|, ChunkBytes(c);
    assert whole == c.size + CRLF + (c.data + CRLF);
    if |r| <= n {
      PartOfSizeIsOpen(c.size, |r|, have, limit);
      assert r == whole[..|r|] == c.size[..|r|];
    } else if |r| == n + 1 {
      PartOfSizeIsOpen(c.size, n, have, limit);
      assert r == whole[..n + 1] == c.size + ['\r'];
    } else {
      var u := r[n + 2..];
      assert r == whole[..|r|] && whole[..n + 2] == c.size + CRLF;
      assert r == c.size + CRLF + u;
      assert u == (c.data + CRLF)[..|u|];
      PartOfDataIsOpen(c, u, have, limit);
    }
  }

  /** Some data to fill a chunk. */
  function Fill(n: nat): (r: bytes)
    ensures |r| == n
  {
    seq(n, _ => 'x')
  }

  lemma OpenSizeExtends(r: bytes, have: nat, limit: nat) returns (c: Chunk)
    requires have <= limit && IsOpen(r, have, limit) && FirstCrlf(r, 0).None?
    ensures IsItem(c) && have + |c.data| <= limit && r <= ChunkBytes(c)
  {
    var d := WithoutCr(r);
    if d == [] {
      ZeroIsLastSize();
      c := Chunk("0", []);
    } else {
      c := Chunk(d, Fill(HexValue(d)));
      assert ChunkBytes(c) == d + ['\r'] + (['\n'] + c.data + CRLF);
    }
  }

  lemma OpenDataExtends(r: bytes, have: nat, limit: nat) returns (c: Chunk)
    requires IsOpen(r, have, limit) && FirstCrlf(r, 0).Some?
    ensures IsItem(c) && have + |c.data| <= limit && r <= ChunkBytes(c)
  {
    var end := FirstCrlf(r, 0).value;
    var size, u := r[..end], r[end + 2..];
    var n := HexValue(size);
    assert r == size + CRLF + u;
    if |u| <= n {
      c := Chunk(size, u + Fill(n - |u|));
      assert ChunkBytes(c) == r + (Fill(n - |u|) + CRLF);
    } else {
      c := Chunk(size, u[..n]);
      assert u == u[..n] + ['\r'];
      assert ChunkBytes(c) == r + ['\n'];
    }
  }

  // ----- an item that fits completes the body -----

  lemma ItemCompletes(s: bytes, limit: nat, cs: seq<Chunk>, c: Chunk) returns (more: bytes)
    requires AreChunks(cs) && ChunksBytes(cs) <= s && IsItem(c) && |Payload(cs)| + |c.data| <= limit
    requires s[|ChunksBytes(cs)|..] <= ChunkBytes(c)
    ensures Decode(s + more, limit).Complete?
  {
    var r := s[|ChunksBytes(cs)|..];
    var rest := ChunkBytes(c)[|r|..];
    assert s == ChunksBytes(cs) + r && ChunkBytes(c) == r + rest;
    Assoc(ChunksBytes(cs), r, rest);
    if c.data == [] {
      more := rest;
      LastItemCompletes(s + more, limit, cs, c);
    } else {
      more := rest + ("0" + CRLF + CRLF);
      Assoc(s, rest, "0" + CRLF + CRLF);
      ChunkItemCompletes(s + more, limit, cs, c);
    }
  }

  lemma LastItemCompletes(wire: bytes, limit: nat, cs: seq<Chunk>, c: Chunk)
    requires AreChunks(cs) && IsItem(c) && c.data == [] && |Payload(cs)| <= limit
    requires wire == ChunksBytes(cs) + ChunkBytes(c)
    ensures Decode(wire, limit).Complete?
  {
    hide Decode;
    hide HexValue;
    assert ChunkBytes(c) == c.size + CRLF + CRLF;
    Assoc(ChunksBytes(cs), c.size + CRLF, CRLF);
    Assoc(ChunksBytes(cs), c.size, CRLF);
    EncodedIsAccepted(wire, limit, cs, c.size);
  }

  lemma ChunkItemCompletes(wire: bytes, limit: nat, cs: seq<Chunk>, c: Chunk)
    requires AreChunks(cs) && IsItem(c) && c.data != [] && |Payload(cs)| + |c.data| <= limit
    requires wire == ChunksBytes(cs) + ChunkBytes(c) + ("0" + CRLF + CRLF)
    ensures Decode(wire, limit).Complete?
  {
    ZeroIsLastSize();
    hide Decode;
    hide HexValue;
    ChunksAppend(cs, c);
    Assoc(ChunksBytes(cs + [c]), "0" + CRLF, CRLF);
    Assoc(ChunksBytes(cs + [c]), "0", CRLF);
    EncodedIsAccepted(wire, limit, cs + [c], "0");
  }

  lemma ZeroIsLastSize()
    ensures IsLastSize("0")
  {
    assert "0"[..0] == "";
  }

  // ----- and what completes the body begins with an item -----

  lemma CompletionIsItem(s: bytes, limit: nat, cs: seq<Chunk>, more: bytes) returns (c: Chunk)
    requires StopsAfter(s, limit, cs) && Decode(s, limit) == NeedMore
    requires Decode(s + more, limit).Complete?
    ensures IsItem(c) && |Payload(cs)| + |c.data| <= limit
    ensures s[|ChunksBytes(cs)|..] <= ChunkBytes(c) && |s| < |ChunksBytes(cs)| + |ChunkBytes(c)|
  {
    hide RoundAt;
    hide DecodeFrom;
    hide HexValue;
    var t, pos, have := s + more, |ChunksBytes(cs)|, |Payload(cs)|;
    OutcomeAfterRun(s, limit, cs);
    assert At(t, 0, ChunksBytes(cs)) by {
      assert forall k :: 0 <= k < |s| ==> t[k] == s[k];
    }
    DecodeThroughChunks(t, 0, [], limit, cs);
    assert [] + Payload(cs) == Payload(cs);
    DecodeUnfolds(t, pos, Payload(cs), limit);
    if RoundAt(t, pos, have, limit).Data? {
      c := RoundIsChunk(t, pos, have, limit);
    } else {
      var z := LastIsTerminator(t, pos, have, limit);
      c := Chunk(z, []);
      assert ChunkBytes(c) == z + CRLF + CRLF;
    }
    if pos + |ChunkBytes(c)| <= |s| {
      AtShorter(s, more, pos, ChunkBytes(c));
      if c.data != [] {
        RoundReadsChunk(s, pos, c, have, limit);
      } else {
        assert ChunkBytes(c) == c.size + CRLF + CRLF;
        RoundReadsLast(s, pos, c.size, have, limit);
      }
    }
    PrefixOfPart(s, more, pos, ChunkBytes(c));
  }

  lemma AtShorter(s: bytes, more: bytes, pos: nat, part: bytes)
    requires At(s + more, pos, part) && pos + |part| <= |s|
    ensures At(s, pos, part)
  {
    forall k | 0 <= k < |part| ensures s[pos + k] == part[k] {
      assert (s + more)[pos + k] == s[pos + k];
    }
  }

  lemma PrefixOfPart(s: bytes, more: bytes, pos: nat, part: bytes)
    requires At(s + more, pos, part) && pos <= |s| < pos + |part|
    ensures s[pos..] <= part
  {
    forall k | 0 <= k < |s| - pos ensures s[pos..][k] == part[k] {
      assert (s + more)[pos + k] == s[pos + k];
    }
  }

  // ----- the theorem -----

  /** An undecided input has a continuation that completes it exactly when what follows its
      chunks is open. */
  lemma NeedMoreIsViableExactly(s: bytes, limit: nat, cs: seq<Chunk>)
    requires StopsAfter(s, limit, cs) && Decode(s, limit) == NeedMore
    ensures ChunksBytes(cs) <= s
    ensures (exists more :: Decode(s + more, limit).Complete?)
            <==> IsOpen(s[|ChunksBytes(cs)|..], |Payload(cs)|, limit)
  {
    hide RoundAt;
    hide DecodeFrom;
    hide IsOpen;
    AtPrefix(s, ChunksBytes(cs));
    var r, have := s[|ChunksBytes(cs)|..], |Payload(cs)|;
    if more :| Decode(s + more, limit).Complete? {
      var c := CompletionIsItem(s, limit, cs, more);
      PrefixOfItemIsOpen(c, r, have, limit);
    }
    if IsOpen(r, have, limit) {
      var c: Chunk;
      if FirstCrlf(r, 0).None? {
        c := OpenSizeExtends(r, have, limit);
      } else {
        c := OpenDataExtends(r, have, limit);
      }
      var more := ItemCompletes(s, limit, cs, c);
    }
  }

  /** For one, `zz` is not refused until its line ends, and no continuation of it is a chunked
      body. */
  lemma NeedMoreIsNotViability(more: bytes, limit: nat)
    ensures Decode("zz", limit) == NeedMore
    ensures !Decode("zz" + more, limit).Complete?
  {
    DecodeUnfolds("zz", 0, [], limit);
    assert StopsAfter("zz", limit, []);
    hide DecodeFrom;
    hide RoundAt;
    NeedMoreIsViableExactly("zz", limit, []);
    assert "zz"[0..] == "zz";
    assert !IsHex("zz"[0]);
  }

  // ----- malformed input -----

  /** What stands after the chunks can be nothing of the grammar: a line that is no size line, a
      trailer that is not empty, or data that fit the limit and are not followed by CRLF. */
  predicate IsMalformed(r: bytes, have: nat, limit: nat) {
    match FirstCrlf(r, 0)
    case None => false
    case Some(end) =>
      var u := r[end + 2..];
      match ParseChunkSize(r[..end])
      case None => true
      case Some(n) =>
        if n == 0 then FirstCrlf(u, 0).Some? && FirstCrlf(u, 0) != Some(0)
        else have + n <= limit && n + 2 <= |u| && !CrlfAt(u, n)
  }

  lemma CrlfShift(s: bytes, pos: nat)
    requires pos <= |s|
    ensures FirstCrlf(s, pos).None? <==> FirstCrlf(s[pos..], 0).None?
    ensures FirstCrlf(s, pos).Some? ==> FirstCrlf(s[pos..], 0) == Some(FirstCrlf(s, pos).value - pos)
  {
    var r := s[pos..];
    assert forall j: nat :: CrlfAt(r, j) <==> CrlfAt(s, pos + j) by {
      forall j: nat ensures CrlfAt(r, j) <==> CrlfAt(s, pos + j) {
        ShiftedCrlf(s, pos, j);
      }
    }
    if FirstCrlf(s, pos).Some? {
      var i := FirstCrlf(s, pos).value - pos;
      assert CrlfAt(r, i);
      assert forall j :: 0 <= j < i ==> !CrlfAt(r, j);
    }
  }

  lemma ShiftedCrlf(s: bytes, pos: nat, j: nat)
    requires pos <= |s|
    ensures CrlfAt(s[pos..], j) <==> CrlfAt(s, pos + j)
  {
  }

  lemma SemicolonIsNoSize(line: bytes)
    requires ';' in line
    ensures ParseChunkSize(line) == None
  {
    var i :| 0 <= i < |line| && line[i] == ';';
    assert !IsHex(line[i]);
  }

  /** The parts of a round seen from where it starts. */
  lemma RoundFromStart(s: bytes, pos: nat)
    requires pos <= |s| && FirstCrlf(s, pos).Some?
    ensures var end, r := FirstCrlf(s, pos).value, s[pos..];
            && FirstCrlf(r, 0) == Some(end - pos) && r[..end - pos] == s[pos..end] && r[end - pos + 2..] == s[end + 2..]
  {
    CrlfShift(s, pos);
    var end, r := FirstCrlf(s, pos).value, s[pos..];
    assert r[..end - pos] == s[pos..end];
    assert r[end - pos + 2..] == s[end + 2..];
  }

  lemma BadRoundIsMalformed(s: bytes, pos: nat, have: nat, limit: nat)
    requires pos <= |s|
    ensures RoundAt(s, pos, have, limit) == Fault(BadChunk) <==> IsMalformed(s[pos..], have, limit)
  {
    hide ParseChunkSize;
    if FirstCrlf(s, pos).None? {
      CrlfShift(s, pos);
    } else {
      var end := FirstCrlf(s, pos).value;
      var line := s[pos..end];
      RoundFromStart(s, pos);
      CrlfShift(s, end + 2);
      if ';' in line {
        SemicolonIsNoSize(line);
      }
      if ParseChunkSize(line).Some? {
        ShiftedCrlf(s, end + 2, ParseChunkSize(line).value);
      }
      hide CrlfAt;
    }
  }

  /** Exactly when the decoder refuses a body as malformed. */
  lemma BadChunkIsExact(s: bytes, limit: nat, cs: seq<Chunk>)
    requires StopsAfter(s, limit, cs)
    ensures ChunksBytes(cs) <= s
    ensures Decode(s, limit) == Rejected(BadChunk) <==> IsMalformed(s[|ChunksBytes(cs)|..], |Payload(cs)|, limit)
  {
    hide RoundAt;
    hide DecodeFrom;
    hide IsMalformed;
    AtPrefix(s, ChunksBytes(cs));
    OutcomeAfterRun(s, limit, cs);
    BadRoundIsMalformed(s, |ChunksBytes(cs)|, |Payload(cs)|, limit);
  }
}
