/** Reading a goal off a stream that arrives in pieces, and when the cutting matters.

    Every reader of the system has one loop: stop when the buffer holds what is wanted, give
    up when it has grown past a guard, otherwise read once more. `Accumulate` is that loop;
    a segmentation is the sequence of non-empty pieces that successive reads return. */
module Reading {
  import opened Octets
  import opened Request
  import opened Chunked
  import opened ChunkedMachine
  import opened ChunkedWords

  const READ_SIZE: nat := 8192

  datatype Goal = WholeHead | WholeChunked(limit: nat) | Bytes(len: nat)

  predicate Reached(g: Goal, buf: bytes) {
    match g
    case WholeHead => FindHeadEnd(buf).Some?
    case WholeChunked(limit) => MachineDecode(buf, limit) != Answer(NeedMore)
    case Bytes(len) => len <= |buf|
  }

  function SaturatingAdd(a: nat, b: nat): nat {
    if a + b > MAX_U64 then MAX_U64 else a + b
  }

  /** The buffer length past which a chunked body is given up. */
  function ChunkedGuard(limit: nat): nat {
    SaturatingAdd(SaturatingAdd(limit, limit), 4096)
  }

  function Guard(g: Goal): Option<nat> {
    match g
    case WholeHead => Some(MAX_HEAD_LEN)
    case WholeChunked(limit) => Some(ChunkedGuard(limit))
    case Bytes(_) => None
  }

  predicate PastGuard(g: Goal, len: nat) {
    Guard(g).Some? && len > Guard(g).value
  }

  datatype Verdict = Finished | Overgrown | Ended

  datatype Progress = Progress(verdict: Verdict, buf: bytes, rest: seq<bytes>)

  function Accumulate(g: Goal, buf: bytes, segs: seq<bytes>): Progress
    decreases |segs|
  {
    if Reached(g, buf) then Progress(Finished, buf, segs)
    else if PastGuard(g, |buf|) then Progress(Overgrown, buf, segs)
    else if segs == [] then Progress(Ended, buf, segs)
    else Accumulate(g, buf + segs[0], segs[1..])
  }

  ghost predicate Segments(segs: seq<bytes>) {
    forall i :: 0 <= i < |segs| ==> 1 <= |segs[i]| <= READ_SIZE
  }

  function Flatten(segs: seq<bytes>): bytes {
    if segs == [] then [] else segs[0] + Flatten(segs[1..])
  }

  lemma {:induction false} FlattenConcat(a: seq<bytes>, b: seq<bytes>)
    ensures Flatten(a + b) == Flatten(a) + Flatten(b)
  {
    if a == [] {
      assert a + b == b;
    } else {
      assert (a + b)[1..] == a[1..] + b;
      FlattenConcat(a[1..], b);
      Assoc(a[0], Flatten(a[1..]), Flatten(b));
    }
  }

  // ----- more input never undoes a goal -----

  lemma HeadEndIsStable(s: bytes, t: bytes)
    requires s <= t && FindHeadEnd(s).Some?
    ensures FindHeadEnd(t) == FindHeadEnd(s)
  {
    var i := FirstHeadEnd(s, 0).value;
    assert forall j :: 0 <= j <= i ==> (HeadEndAt(s, j) <==> HeadEndAt(t, j));
  }

  lemma ReachedIsStable(g: Goal, s: bytes, t: bytes)
    requires s <= t && Reached(g, s)
    ensures Reached(g, t)
  {
    match g
    case WholeHead => HeadEndIsStable(s, t);
    case WholeChunked(limit) => MachineIsStable(s, t, limit);
    case Bytes(_) =>
  }

  /** The length of the shortest prefix that reaches the goal. */
  function FirstReached(g: Goal, s: bytes, from: nat): (r: Option<nat>)
    requires from <= |s|
    ensures r.Some? ==> from <= r.value <= |s| && Reached(g, s[..r.value])
    ensures r.Some? ==> forall n :: from <= n < r.value ==> !Reached(g, s[..n])
    ensures r.None? ==> forall n :: from <= n <= |s| ==> !Reached(g, s[..n])
    decreases |s| - from
  {
    if Reached(g, s[..from]) then Some(from)
    else if from == |s| then None
    else FirstReached(g, s, from + 1)
  }

  function Deciding(g: Goal, s: bytes): (r: Option<nat>)
    ensures r.Some? ==> r.value <= |s|
  {
    FirstReached(g, s, 0)
  }

  /** A prefix reaches the goal exactly from the deciding length on. */
  lemma ReachedFromDeciding(g: Goal, s: bytes, n: nat)
    requires n <= |s|
    ensures Reached(g, s[..n]) <==> Deciding(g, s).Some? && Deciding(g, s).value <= n
  {
    hide Reached;
    var d := Deciding(g, s);
    if d.Some? && d.value <= n {
      assert s[..d.value] <= s[..n];
      ReachedIsStable(g, s[..d.value], s[..n]);
    }
  }

  /** A complete chunked body is decided by its own last byte. */
  lemma CompleteIsDecidedByItself(s: bytes, limit: nat, body: bytes, consumed: nat)
    requires MachineDecode(s, limit) == Answer(Complete(body, consumed))
    ensures Deciding(WholeChunked(limit), s) == Some(consumed)
  {
    hide MachineDecode;
    hide Deciding;
    hide EncodesInWords;
    MachineAcceptsExactly(s, limit, body, consumed);
    MachineIsTight(s, limit, consumed);
    ReachedFromDeciding(WholeChunked(limit), s, consumed);
    if consumed > 0 {
      MachineIsTight(s, limit, consumed - 1);
      ReachedFromDeciding(WholeChunked(limit), s, consumed - 1);
    }
  }

  // ----- what every segmentation keeps -----

  function Larger(a: nat, b: nat): nat {
    if a < b then b else a
  }

  /** The most a reader of this goal may hold, starting from `held` bytes. */
  function HoldsAtMost(g: Goal, held: nat): nat {
    match g
    case Bytes(len) => Larger(held, len + READ_SIZE - 1)
    case _ => Larger(held, Guard(g).value + READ_SIZE)
  }

  /** Nothing is lost or reordered, and the buffer stays bounded. */
  lemma {:induction false} AccumulateKeepsBytes(g: Goal, buf: bytes, segs: seq<bytes>)
    requires Segments(segs)
    ensures var p := Accumulate(g, buf, segs);
            p.buf + Flatten(p.rest) == buf + Flatten(segs)
            && buf <= p.buf && Segments(p.rest) && |p.buf| <= HoldsAtMost(g, |buf|)
    decreases |segs|
  {
    if !Reached(g, buf) && !PastGuard(g, |buf|) && segs != [] {
      hide Decode;
      hide FindHeadEnd;
      AccumulateKeepsBytes(g, buf + segs[0], segs[1..]);
      Assoc(buf, segs[0], Flatten(segs[1..]));
    }
  }

  /** Reading goes on through pieces that neither reach the goal nor pass the guard. */
  lemma {:induction false} AccumulateThrough(g: Goal, buf: bytes, a: seq<bytes>, b: seq<bytes>)
    requires !Reached(g, buf + Flatten(a)) && !PastGuard(g, |buf + Flatten(a)|)
    ensures Accumulate(g, buf, a + b) == Accumulate(g, buf + Flatten(a), b)
    decreases |a|
  {
    hide Reached;
    if a == [] {
      assert buf + Flatten(a) == buf && a + b == b;
    } else {
      Assoc(buf, a[0], Flatten(a[1..]));
      if Reached(g, buf) {
        ReachedIsStable(g, buf, buf + Flatten(a));
      }
      assert (a + b)[0] == a[0] && (a + b)[1..] == a[1..] + b;
      AccumulateThrough(g, buf + a[0], a[1..], b);
    }
  }

  // ----- which verdicts a stream admits -----

  /** The stream decides before the guard can interfere, or never decides. */
  ghost predicate Settled(g: Goal, s: bytes) {
    Deciding(g, s).Some? && Guard(g).Some? ==> Deciding(g, s).value <= Guard(g).value + 1
  }

  function ExpectedVerdict(g: Goal, s: bytes): Verdict {
    if Deciding(g, s).Some? then Finished else if PastGuard(g, |s|) then Overgrown else Ended
  }

  lemma {:induction false} VerdictOfStream(g: Goal, buf: bytes, segs: seq<bytes>)
    requires Segments(segs)
    ensures var p, s := Accumulate(g, buf, segs), buf + Flatten(segs);
            && (p.verdict == ExpectedVerdict(g, s) || (Deciding(g, s).Some? && p.verdict == Overgrown))
            && (p.verdict == Overgrown ==> PastGuard(g, |p.buf|))
            && (p.verdict == Finished <==> Reached(g, p.buf))
            && (p.verdict == Ended ==> p.rest == [])
    decreases |segs|
  {
    hide Reached;
    hide Deciding;
    var s := buf + Flatten(segs);
    assert s[..|buf|] == buf;
    ReachedFromDeciding(g, s, |buf|);
    if !Reached(g, buf) && !PastGuard(g, |buf|) {
      if segs == [] {
        assert s == buf;
      } else {
        Assoc(buf, segs[0], Flatten(segs[1..]));
        VerdictOfStream(g, buf + segs[0], segs[1..]);
      }
    }
  }

  /** On a settled stream the verdict does not depend on how the stream is cut. */
  lemma SettledIsIndependent(g: Goal, buf: bytes, segs: seq<bytes>)
    requires Segments(segs) && Settled(g, buf + Flatten(segs))
    ensures Accumulate(g, buf, segs).verdict == ExpectedVerdict(g, buf + Flatten(segs))
  {
    hide Reached;
    hide Deciding;
    var s, p := buf + Flatten(segs), Accumulate(g, buf, segs);
    VerdictOfStream(g, buf, segs);
    AccumulateKeepsBytes(g, buf, segs);
    assert s[..|p.buf|] == p.buf;
    ReachedFromDeciding(g, s, |p.buf|);
  }

  // ----- exactly when the cutting matters -----

  function Singles(s: bytes): seq<bytes> {
    if s == [] then [] else [[s[0]]] + Singles(s[1..])
  }

  lemma {:induction false} SinglesAreSegments(s: bytes)
    ensures Segments(Singles(s)) && Flatten(Singles(s)) == s
  {
    if s != [] {
      SinglesAreSegments(s[1..]);
      assert Singles(s)[1..] == Singles(s[1..]);
    }
  }

  /** Cut `s` into single bytes, except for one piece between `lo` and `hi`. */
  function CutAt(s: bytes, lo: nat, hi: nat): seq<bytes>
    requires lo < hi <= |s|
  {
    Singles(s[..lo]) + ([s[lo..hi]] + Singles(s[hi..]))
  }

  lemma CutAtIsSegmentation(s: bytes, lo: nat, hi: nat)
    requires lo < hi <= |s| && hi - lo <= READ_SIZE
    ensures Segments(CutAt(s, lo, hi)) && Flatten(CutAt(s, lo, hi)) == s
  {
    hide Singles;
    SinglesAreSegments(s[..lo]);
    SinglesAreSegments(s[hi..]);
    var tail := [s[lo..hi]] + Singles(s[hi..]);
    FlattenConcat(Singles(s[..lo]), tail);
    assert tail[1..] == Singles(s[hi..]);
    assert s == s[..lo] + (s[lo..hi] + s[hi..]);
  }

  /** Reading up to the guard byte by byte, then one larger piece. */
  lemma CutAtGuard(g: Goal, s: bytes, hi: nat)
    requires Guard(g).Some? && Deciding(g, s).Some? && Guard(g).value + 1 < Deciding(g, s).value
    requires Guard(g).value < hi <= |s|
    ensures Accumulate(g, [], CutAt(s, Guard(g).value, hi)).verdict
            == if Deciding(g, s).value <= hi then Finished else Overgrown
  {
    hide Reached;
    hide Deciding;
    hide Singles;
    var lo, tail := Guard(g).value, [s[Guard(g).value..hi]] + Singles(s[hi..]);
    SinglesAreSegments(s[..lo]);
    assert [] + Flatten(Singles(s[..lo])) == s[..lo];
    ReachedFromDeciding(g, s, lo);
    AccumulateThrough(g, [], Singles(s[..lo]), tail);
    assert tail[0] == s[lo..hi];
    assert s[..lo] + s[lo..hi] == s[..hi];
    ReachedFromDeciding(g, s, hi);
  }

  /** Every segmentation of the whole stream gives the same verdict. */
  ghost predicate CuttingIsIrrelevant(g: Goal, s: bytes) {
    forall a, b :: Segments(a) && Segments(b) && Flatten(a) == s && Flatten(b) == s
      ==> Accumulate(g, [], a).verdict == Accumulate(g, [], b).verdict
  }

  /** A stream decided more than one read past the guard is refused under every cutting. */
  lemma FarPastGuard(g: Goal, segs: seq<bytes>)
    requires Segments(segs) && Guard(g).Some?
    requires Deciding(g, Flatten(segs)).Some? && Guard(g).value + READ_SIZE < Deciding(g, Flatten(segs)).value
    ensures Accumulate(g, [], segs).verdict == Overgrown
  {
    hide Reached;
    hide Deciding;
    var s, p := Flatten(segs), Accumulate(g, [], segs);
    assert [] + s == s;
    VerdictOfStream(g, [], segs);
    AccumulateKeepsBytes(g, [], segs);
    assert s[..|p.buf|] == p.buf;
    ReachedFromDeciding(g, s, |p.buf|);
  }

  /** Reading does not depend on the segmentation exactly when the stream never decides, or
      decides no later than one byte past the guard, or more than one full read past it. */
  lemma CuttingMattersExactly(g: Goal, s: bytes)
    ensures CuttingIsIrrelevant(g, s)
            <==> Settled(g, s) || Guard(g).value + READ_SIZE < Deciding(g, s).value
  {
    hide Reached;
    hide Deciding;
    hide Accumulate;
    if Settled(g, s) {
      forall a, b | Segments(a) && Segments(b) && Flatten(a) == s && Flatten(b) == s
        ensures Accumulate(g, [], a).verdict == Accumulate(g, [], b).verdict
      {
        assert [] + s == s;
        SettledIsIndependent(g, [], a);
        SettledIsIndependent(g, [], b);
      }
    } else if Guard(g).value + READ_SIZE < Deciding(g, s).value {
      forall a, b | Segments(a) && Segments(b) && Flatten(a) == s && Flatten(b) == s
        ensures Accumulate(g, [], a).verdict == Accumulate(g, [], b).verdict
      {
        FarPastGuard(g, a);
        FarPastGuard(g, b);
      }
    } else {
      var lo := Guard(g).value;
      var hi := Deciding(g, s).value;
      CutAtIsSegmentation(s, lo, lo + 1);
      CutAtIsSegmentation(s, lo, hi);
      CutAtGuard(g, s, lo + 1);
      CutAtGuard(g, s, hi);
    }
  }
}
