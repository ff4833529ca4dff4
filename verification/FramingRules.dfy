/** Section 6.3 of RFC 9112, rule by rule: what each framing says about the headers, in terms of
    their names and trimmed values alone. */
module FramingRules {
  import opened Octets
  import opened Errors
  import opened Framing

  // ----- what a header says -----

  ghost predicate SaysLength(h: Header) {
    EqIgnoreCase(h.0, "Content-Length")
  }

  ghost predicate SaysEncoding(h: Header) {
    EqIgnoreCase(h.0, "Transfer-Encoding")
  }

  /** The trimmed value is digits that denote `n`, and `n` fits 64 bits. */
  ghost predicate IsLength(value: string, n: nat) {
    var v := Trim(value);
    v != [] && AllDigits(v) && DecimalValue(v) == n && n < 0x1_0000_0000_0000_0000
  }

  ghost predicate IsChunkedCoding(value: string) {
    EqIgnoreCase(Trim(value), "chunked")
  }

  ghost predicate NoLength(hs: seq<Header>) {
    forall i :: 0 <= i < |hs| ==> !SaysLength(hs[i])
  }

  ghost predicate NoEncoding(hs: seq<Header>) {
    forall i :: 0 <= i < |hs| ==> !SaysEncoding(hs[i])
  }

  ghost predicate LengthsAre(hs: seq<Header>, n: nat) {
    forall i :: 0 <= i < |hs| && SaysLength(hs[i]) ==> IsLength(hs[i].1, n)
  }

  /** Exactly one header names a transfer coding, and it is `chunked`. */
  ghost predicate OneChunkedCoding(hs: seq<Header>) {
    exists i :: 0 <= i < |hs| && SaysEncoding(hs[i]) && IsChunkedCoding(hs[i].1)
                && forall j :: 0 <= j < |hs| && SaysEncoding(hs[j]) ==> j == i
  }

  // ----- the scan sees just that -----

  lemma NamesByLiteral(h: Header)
    ensures SaysLength(h) <==> IsLengthHeader(h)
    ensures SaysEncoding(h) <==> IsEncodingHeader(h)
    ensures !(SaysLength(h) && SaysEncoding(h))
  {
    assert Lower("Content-Length") == Lower("content-length");
    assert Lower("Transfer-Encoding") == Lower("transfer-encoding");
    NamesDiffer(h);
  }

  lemma LengthByRule(value: string, n: nat)
    ensures LengthValue(value) == Some(n) <==> IsLength(value, n)
  {
  }

  /** The state of the scan after these headers, place by place. */
  ghost predicate Sees(hs: seq<Header>, seen: Seen) {
    && (seen.length.None? ==> NoLength(hs))
    && (seen.length.Some? ==> !NoLength(hs) && LengthsAre(hs, seen.length.value))
    && (if seen.encoding then OneChunkedCoding(hs) else NoEncoding(hs))
  }

  lemma StepSees(hs: seq<Header>, seen: Seen, h: Header, next: Seen)
    requires Sees(hs, seen) && FramingStep(seen, h) == Ok(next)
    ensures Sees(hs + [h], next)
  {
    hide EqIgnoreCase;
    hide LengthValue;
    hide IsLength;
    hide IsChunkedCoding;
    NamesByLiteral(h);
    hide SaysLength;
    hide SaysEncoding;
    hide IsLengthHeader;
    hide IsEncodingHeader;
    var all, n := hs + [h], |hs|;
    assert all[n] == h && forall i :: 0 <= i < n ==> all[i] == hs[i];
    if SaysLength(h) {
      LengthByRule(h.1, next.length.value);
    } else if SaysEncoding(h) {
      ChunkedByRule(h.1);
      assert SaysEncoding(all[n]) && IsChunkedCoding(all[n].1);
    }
    if seen.encoding {
      var i :| 0 <= i < n && SaysEncoding(hs[i]) && IsChunkedCoding(hs[i].1)
               && forall j :: 0 <= j < n && SaysEncoding(hs[j]) ==> j == i;
      assert SaysEncoding(all[i]) && IsChunkedCoding(all[i].1);
    }
  }

  lemma ChunkedByRule(value: string)
    ensures NamesChunked(value) <==> IsChunkedCoding(value)
  {
  }

  lemma {:induction false} ScanSees(hs: seq<Header>)
    requires Scan(hs).Ok?
    ensures Sees(hs, Scan(hs).value)
  {
    if hs != [] {
      var n := |hs| - 1;
      ScanSees(hs[..n]);
      assert hs == hs[..n] + [hs[n]];
      StepSees(hs[..n], Scan(hs[..n]).value, hs[n], Scan(hs).value);
    }
  }

  /** Headers whose lengths agree, with at most one transfer coding, `chunked`, are scanned. */
  lemma {:induction false} ScanAccepts(hs: seq<Header>, n: nat)
    requires LengthsAre(hs, n) && (NoEncoding(hs) || OneChunkedCoding(hs))
    ensures Scan(hs).Ok?
  {
    if hs != [] {
      var k := |hs| - 1;
      var init, h := hs[..k], hs[k];
      PrefixKeepsRules(hs, n);
      ScanAccepts(init, n);
      ScanSees(init);
      StepAccepts(hs, n, Scan(init).value);
    }
  }

  lemma PrefixKeepsRules(hs: seq<Header>, n: nat)
    requires hs != [] && LengthsAre(hs, n) && (NoEncoding(hs) || OneChunkedCoding(hs))
    ensures var init := hs[..|hs| - 1];
            LengthsAre(init, n) && (NoEncoding(init) || OneChunkedCoding(init))
  {
    hide SaysLength;
    hide SaysEncoding;
    hide IsLength;
    hide IsChunkedCoding;
    var init := hs[..|hs| - 1];
    assert forall i :: 0 <= i < |init| ==> init[i] == hs[i];
    if !NoEncoding(init) {
      var i :| 0 <= i < |init| && SaysEncoding(init[i]);
      assert SaysEncoding(hs[i]) && SaysEncoding(init[i]) && IsChunkedCoding(init[i].1);
    }
  }

  lemma StepAccepts(hs: seq<Header>, n: nat, seen: Seen)
    requires hs != [] && LengthsAre(hs, n) && (NoEncoding(hs) || OneChunkedCoding(hs))
    requires Sees(hs[..|hs| - 1], seen)
    ensures FramingStep(seen, hs[|hs| - 1]).Ok?
  {
    hide EqIgnoreCase;
    hide LengthValue;
    hide IsLength;
    hide IsChunkedCoding;
    var k := |hs| - 1;
    var init, h := hs[..k], hs[k];
    assert forall i :: 0 <= i < k ==> init[i] == hs[i];
    NamesByLiteral(h);
    if SaysLength(h) {
      LengthByRule(h.1, n);
      if seen.length.Some? {
        var i :| 0 <= i < k && SaysLength(init[i]);
        assert SaysLength(hs[i]);
        LengthIsOne(hs[i].1, n, seen.length.value);
      }
    } else if SaysEncoding(h) {
      ChunkedByRule(h.1);
    }
  }

  lemma LengthIsOne(value: string, m: nat, n: nat)
    requires IsLength(value, m) && IsLength(value, n)
    ensures m == n
  {
  }

  // ----- the rules -----

  /** Which headers declare which framing: chunked by exactly one `chunked` coding and no length; a
      length by agreeing lengths above zero and no coding; no body by agreeing lengths of zero, or
      none, and no coding. */
  ghost predicate Declares(hs: seq<Header>, f: BodyFraming) {
    match f
    case ChunkedBody => NoLength(hs) && OneChunkedCoding(hs)
    case Length(n) => n > 0 && NoEncoding(hs) && !NoLength(hs) && LengthsAre(hs, n)
    case NoBody => NoEncoding(hs) && LengthsAre(hs, 0)
  }

  /** The framing is exactly the declared one, and there is none when nothing is declared. */
  lemma FramingFollowsTheRules(hs: seq<Header>, f: BodyFraming)
    ensures FramingOf(hs) == Ok(f) <==> Declares(hs, f)
  {
    hide SaysLength;
    hide SaysEncoding;
    hide IsLength;
    hide IsChunkedCoding;
    if Scan(hs).Ok? {
      ScanSees(hs);
      var seen := Scan(hs).value;
      if seen.length.Some? {
        var i :| 0 <= i < |hs| && SaysLength(hs[i]);
        LengthIsTheOne(hs[i].1, seen.length.value);
      }
    }
    match f
    case ChunkedBody =>
      if Declares(hs, f) {
        ScanAccepts(hs, 0);
      }
    case Length(n) =>
      if Declares(hs, f) {
        ScanAccepts(hs, n);
      }
    case NoBody =>
      if Declares(hs, f) {
        ScanAccepts(hs, 0);
      }
  }

  lemma LengthIsTheOne(value: string, n: nat)
    requires IsLength(value, n)
    ensures forall m :: IsLength(value, m) ==> m == n
  {
  }

  /** Both kinds of header together are always refused. */
  lemma BothFramingsAreRefused(hs: seq<Header>)
    requires !NoLength(hs) && !NoEncoding(hs)
    ensures FramingOf(hs).Err?
  {
    if FramingOf(hs).Ok? {
      FramingFollowsTheRules(hs, FramingOf(hs).value);
      hide SaysLength;
      hide SaysEncoding;
    }
  }

  /** And why: two framings, each in order by itself; a length that is no number or disagrees; or a
      coding that is not `chunked` or is the second. */
  lemma FramingErrors(hs: seq<Header>)
    requires FramingOf(hs).Err?
    ensures FramingOf(hs).error in {ConflictingFraming, BadContentLength, BadTransferEncoding}
    ensures FramingOf(hs).error == ConflictingFraming
            <==> !NoLength(hs) && OneChunkedCoding(hs) && exists n :: LengthsAre(hs, n)
    ensures FramingOf(hs).error == BadContentLength ==> !exists n :: LengthsAre(hs, n)
    ensures FramingOf(hs).error == BadTransferEncoding ==> !NoEncoding(hs) && !OneChunkedCoding(hs)
  {
    if Scan(hs).Ok? {
      ScanSees(hs);
      hide SaysLength;
      hide SaysEncoding;
      hide IsLength;
    } else {
      var i := ScanErrors(hs);
    }
  }

  /** The scan fails at the header that first offends. */
  lemma {:induction false} ScanErrors(hs: seq<Header>) returns (i: nat)
    requires Scan(hs).Err?
    ensures i < |hs| && Scan(hs).error in {BadContentLength, BadTransferEncoding}
    ensures Scan(hs).error == BadContentLength ==> !exists n :: LengthsAre(hs, n)
    ensures Scan(hs).error == BadTransferEncoding ==> !NoEncoding(hs) && !OneChunkedCoding(hs)
  {
    var k := |hs| - 1;
    var init, h := hs[..k], hs[k];
    assert forall j :: 0 <= j < k ==> init[j] == hs[j];
    if Scan(init).Err? {
      i := ScanErrors(init);
      ErrorStays(hs);
    } else {
      i := k;
      ScanSees(init);
      NewError(hs, Scan(init).value);
    }
  }

  lemma ErrorStays(hs: seq<Header>)
    requires hs != []
    ensures var init := hs[..|hs| - 1];
            && ((!exists n :: LengthsAre(init, n)) ==> !exists n :: LengthsAre(hs, n))
            && (!NoEncoding(init) && !OneChunkedCoding(init) ==> !NoEncoding(hs) && !OneChunkedCoding(hs))
  {
    hide SaysLength;
    hide SaysEncoding;
    hide IsLength;
    hide IsChunkedCoding;
    var init := hs[..|hs| - 1];
    assert forall j :: 0 <= j < |init| ==> init[j] == hs[j];
    if n :| LengthsAre(hs, n) {
      assert LengthsAre(init, n);
    }
    if !NoEncoding(init) {
      var i :| 0 <= i < |init| && SaysEncoding(init[i]);
      assert SaysEncoding(hs[i]);
      if OneChunkedCoding(hs) {
        assert SaysEncoding(init[i]) && IsChunkedCoding(init[i].1);
        assert forall j :: 0 <= j < |init| && SaysEncoding(init[j]) ==> SaysEncoding(hs[j]);
      }
    }
  }

  lemma NewError(hs: seq<Header>, seen: Seen)
    requires hs != [] && Sees(hs[..|hs| - 1], seen) && FramingStep(seen, hs[|hs| - 1]).Err?
    ensures var e := FramingStep(seen, hs[|hs| - 1]).error;
            && e in {BadContentLength, BadTransferEncoding}
            && (e == BadContentLength ==> !exists n :: LengthsAre(hs, n))
            && (e == BadTransferEncoding ==> !NoEncoding(hs) && !OneChunkedCoding(hs))
  {
    hide EqIgnoreCase;
    hide LengthValue;
    hide IsLength;
    hide IsChunkedCoding;
    var k := |hs| - 1;
    var init, h := hs[..k], hs[k];
    assert forall j :: 0 <= j < k ==> init[j] == hs[j];
    NamesByLiteral(h);
    if SaysLength(h) {
      if n :| LengthsAre(hs, n) {
        LengthByRule(h.1, n);
        if seen.length.Some? {
          var i :| 0 <= i < k && SaysLength(init[i]);
          LengthIsOne(hs[i].1, n, seen.length.value);
        }
      }
    } else {
      assert SaysEncoding(hs[k]);
      ChunkedByRule(h.1);
      if seen.encoding {
        var i :| 0 <= i < k && SaysEncoding(init[i]);
        assert SaysEncoding(hs[i]);
      }
    }
  }
}
