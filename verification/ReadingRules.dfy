/** When cutting matters to a reader, in bytes. */
module ReadingRules {
  import opened Octets
  import opened Request
  import opened Chunked
  import opened ChunkedMachine
  import opened Reading
  import opened RequestText

  /** Twice the limit and 4096 more, as far as 64 bits go. */
  function GuardBytes(limit: nat): nat {
    if 2 * limit + 4096 > 0xFFFF_FFFF_FFFF_FFFF then 0xFFFF_FFFF_FFFF_FFFF else 2 * limit + 4096
  }

  /** The decoder first decides on this prefix. */
  ghost predicate FirstDecidesAt(s: bytes, limit: nat, n: nat) {
    && n <= |s| && MachineDecode(s[..n], limit) != Answer(NeedMore)
    && forall m :: 0 <= m < n ==> MachineDecode(s[..m], limit) == Answer(NeedMore)
  }

  /** No reading of these pieces, of at most 8192 bytes, ends otherwise than another. */
  ghost predicate EndsAlike(g: Goal, s: bytes) {
    forall a, b :: IsCutting(a, s) && IsCutting(b, s) ==> Accumulate(g, [], a).verdict == Accumulate(g, [], b).verdict
  }

  ghost predicate IsCutting(segs: seq<bytes>, s: bytes) {
    Flatten(segs) == s && forall i :: 0 <= i < |segs| ==> 1 <= |segs[i]| <= 8192
  }

  lemma CuttingsAreSegments(g: Goal, s: bytes)
    ensures EndsAlike(g, s) <==> CuttingIsIrrelevant(g, s)
  {
    hide Accumulate;
    forall a: seq<bytes> ensures IsCutting(a, s) <==> Segments(a) && Flatten(a) == s {
    }
    hide IsCutting;
    hide Segments;
    hide Flatten;
  }

  /** The cutting of a chunked body is irrelevant exactly when the decoder never decides, or decides by
      one byte past the guard, or only after a full read past it. */
  lemma ChunkedCuttingByBytes(limit: nat, s: bytes)
    ensures EndsAlike(WholeChunked(limit), s)
            <==> forall n: nat :: FirstDecidesAt(s, limit, n)
                   ==> n <= GuardBytes(limit) + 1 || n > GuardBytes(limit) + 8192
  {
    var g := WholeChunked(limit);
    CuttingsAreSegments(g, s);
    CuttingMattersExactly(g, s);
    hide MachineDecode;
    hide EndsAlike;
    hide CuttingIsIrrelevant;
    forall n: nat ensures FirstDecidesAt(s, limit, n) <==> Deciding(g, s) == Some(n) {
      FirstIsDeciding(s, limit, n);
    }
    hide Deciding;
  }

  lemma FirstIsDeciding(s: bytes, limit: nat, n: nat)
    ensures FirstDecidesAt(s, limit, n) <==> Deciding(WholeChunked(limit), s) == Some(n)
  {
    hide MachineDecode;
  }

  /** And that of a head exactly when it never ends, or ends by one byte past 65536, or only after a
      full read past that. */
  lemma HeadCuttingByBytes(s: bytes)
    ensures EndsAlike(WholeHead, s) <==> forall end: nat :: EndsAt(s, end) ==> end <= 65537 || end > 73728
  {
    CuttingsAreSegments(WholeHead, s);
    CuttingMattersExactly(WholeHead, s);
    hide EndsAlike;
    hide CuttingIsIrrelevant;
    hide FindHeadEnd;
    forall end: nat ensures EndsAt(s, end) <==> Deciding(WholeHead, s) == Some(end) {
      EndIsDeciding(s, end);
    }
    hide Deciding;
    hide EndsAt;
  }

  lemma EndIsDeciding(s: bytes, end: nat)
    ensures EndsAt(s, end) <==> Deciding(WholeHead, s) == Some(end)
  {
    hide FindHeadEnd;
    EndIsFound(s, end);
    var d := Deciding(WholeHead, s);
    if FindHeadEnd(s).Some? {
      var n := FindHeadEnd(s).value;
      HeadEndIsItsOwn(s, n);
      ReachedFromDeciding(WholeHead, s, n);
      ReachedFromDeciding(WholeHead, s, n - 1);
    } else if d.Some? {
      assert Reached(WholeHead, s[..d.value]);
      HeadEndIsStable(s[..d.value], s);
    }
  }

  lemma HeadEndIsItsOwn(s: bytes, n: nat)
    requires FindHeadEnd(s) == Some(n)
    ensures FindHeadEnd(s[..n]).Some? && FindHeadEnd(s[..n - 1]).None?
  {
    var i := n - 4;
    assert HeadEndAt(s[..n], i);
    if FindHeadEnd(s[..n - 1]).Some? {
      HeadEndIsStable(s[..n - 1], s);
    }
  }
}
