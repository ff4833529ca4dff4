/** Chunked bodies written from data by a printer of its own: the decoders read them back. */
module ChunkedText {
  import opened Octets
  import opened Alphabet
  import opened Chunked
  import opened ChunkedMachine
  import opened ChunkedWords

  // ----- a printer of hexadecimal numbers -----

  function HexText(n: nat, upper: bool): bytes {
    (if n < 16 then [] else HexText(n / 16, upper)) + [HexTable(upper)[n % 16]]
  }

  lemma HexAppend(text: bytes, digit: byte)
    requires All(text, IsHex) && IsHex(digit)
    ensures All(text + [digit], IsHex)
    ensures HexValue(text + [digit]) == 16 * HexValue(text) + HexDigitValue(digit)
  {
    assert (text + [digit])[..|text|] == text;
  }

  lemma HexTextSplits(n: nat, upper: bool)
    ensures HexText(n, upper) == (if n < 16 then [] else HexText(n / 16, upper)) + [HexTable(upper)[n % 16]]
  {
  }

  /** Printed sizes are read back, in either case. */
  lemma {:induction false} HexTextRoundTrip(n: nat, upper: bool)
    ensures HexText(n, upper) != [] && All(HexText(n, upper), IsHex)
    ensures HexValue(HexText(n, upper)) == n
  {
    hide HexText;
    hide HexTable;
    hide HexDigitValue;
    hide IsHex;
    HexDigitsAreByTable(upper, n % 16);
    HexTextSplits(n, upper);
    var init := if n < 16 then [] else HexText(n / 16, upper);
    if n >= 16 {
      HexTextRoundTrip(n / 16, upper);
    }
    HexAppend(init, HexTable(upper)[n % 16]);
  }

  lemma {:induction false} HexTextIsShort(n: nat, upper: bool, k: nat)
    requires 0 < k && n < Pow16(k)
    ensures |HexText(n, upper)| <= k
  {
    if n >= 16 {
      HexTextIsShort(n / 16, upper, k - 1);
    }
  }

  // ----- a printer of chunked bodies -----

  /** Each piece as one chunk. */
  function ChunkedBytes(pieces: seq<bytes>, upper: bool): bytes {
    if pieces == [] then []
    else HexText(|pieces[0]|, upper) + "\r\n" + pieces[0] + "\r\n" + ChunkedBytes(pieces[1..], upper)
  }

  function Concatenated(pieces: seq<bytes>): bytes {
    if pieces == [] then [] else pieces[0] + Concatenated(pieces[1..])
  }

  ghost predicate ArePieces(pieces: seq<bytes>) {
    forall i :: 0 <= i < |pieces| ==> 1 <= |pieces[i]| <= MAX_U64
  }

  lemma {:induction false} ChunkedIsChunks(pieces: seq<bytes>, upper: bool) returns (cs: seq<Chunk>)
    requires ArePieces(pieces)
    ensures AreChunks(cs) && ChunksBytes(cs) == ChunkedBytes(pieces, upper) && Payload(cs) == Concatenated(pieces)
  {
    if pieces == [] {
      cs := [];
    } else {
      assert ArePieces(pieces[1..]) by {
        assert forall i :: 0 <= i < |pieces[1..]| ==> pieces[1..][i] == pieces[i + 1];
      }
      var rest := ChunkedIsChunks(pieces[1..], upper);
      var n := |pieces[0]|;
      HexTextRoundTrip(n, upper);
      Pow16Of16();
      HexTextIsShort(n, upper, 16);
      hide HexText;
      hide HexValue;
      var c := Chunk(HexText(n, upper), pieces[0]);
      cs := [c] + rest;
      assert cs[1..] == rest;
    }
  }

  /** Any data, cut in any way, written as chunks with sizes in either case, is read back whole by
      both decoders, whatever follows. */
  lemma DataRoundTrip(pieces: seq<bytes>, upper: bool, tail: bytes, limit: nat)
    requires ArePieces(pieces) && |Concatenated(pieces)| <= limit && |ChunkedBytes(pieces, upper)| < WORD
    ensures var wire := ChunkedBytes(pieces, upper) + "0\r\n\r\n";
            && Decode(wire + tail, limit) == Complete(Concatenated(pieces), |wire|)
            && MachineDecode(wire + tail, limit) == Answer(Complete(Concatenated(pieces), |wire|))
            && EncodesInWords(wire, Concatenated(pieces))
  {
    hide Decode;
    hide MachineDecode;
    var cs := ChunkedIsChunks(pieces, upper);
    assert IsLastSize("0") by {
      assert "0"[..0] == "";
    }
    assert Wire(cs, "0") == ChunkedBytes(pieces, upper) + "0\r\n\r\n";
    var input := Wire(cs, "0") + tail;
    EncodedIsAccepted(input, limit, cs, "0");
    MachineAcceptsWords(input, limit, cs, "0");
  }
}
