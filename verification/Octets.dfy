/** Bytes, ASCII classes, searching and trimming: what every parser of the system is built from.

    A byte is the character with the same code, so an ASCII text and its bytes are one
    sequence. Every lemma holds of all character sequences, hence of all byte sequences. */
module Octets {
  type byte = char
  type bytes = seq<byte>

  datatype Option<+T> = None | Some(value: T)

  datatype Result<+T, +E> = Ok(value: T) | Err(error: E)

  const CRLF: bytes := "\r\n"

  // ----- character classes -----

  predicate IsDigit(c: byte) {
    '0' <= c <= '9'
  }

  predicate IsHex(c: byte) {
    IsDigit(c) || 'a' <= c <= 'f' || 'A' <= c <= 'F'
  }

  predicate IsAlphanumeric(c: byte) {
    IsDigit(c) || 'a' <= c <= 'z' || 'A' <= c <= 'Z'
  }

  /** The `tchar` of RFC 9110. */
  predicate IsTokenByte(c: byte) {
    IsAlphanumeric(c) || c in "!#$%&'*+-.^_`|~"
  }

  predicate IsPrintable(c: byte) {
    '!' <= c <= '~'
  }

  /** Optional whitespace of RFC 9110: SP and HTAB. */
  predicate IsOws(c: byte) {
    c == ' ' || c == '\t'
  }

  predicate IsFieldByte(c: byte) {
    c == '\t' || ' ' <= c <= '~'
  }

  predicate IsAscii(c: byte) {
    c as int < 128
  }

  predicate IsLineBreak(c: byte) {
    c == '\r' || c == '\n'
  }

  /** The White_Space property of Unicode, which the trimming of Rust texts follows. */
  predicate IsWhite(c: char) {
    var n := c as int;
    9 <= n <= 13 || n == 32 || n == 0x85 || n == 0xA0 || n == 0x1680 || 0x2000 <= n <= 0x200A
    || n == 0x2028 || n == 0x2029 || n == 0x202F || n == 0x205F || n == 0x3000
  }

  ghost predicate All(s: bytes, p: byte -> bool) {
    forall i :: 0 <= i < |s| ==> p(s[i])
  }

  /** A non-empty run of token bytes. */
  ghost predicate IsToken(s: bytes) {
    s != [] && All(s, IsTokenByte)
  }

  /** A line without any CR or LF. */
  ghost predicate IsOneLine(s: bytes) {
    forall i :: 0 <= i < |s| ==> !IsLineBreak(s[i])
  }

  predicate AllOf(s: bytes, p: byte -> bool)
    ensures AllOf(s, p) <==> All(s, p)
  {
    if s == [] then true else p(s[0]) && AllOf(s[1..], p)
  }

  lemma TokensAreOneLine(s: bytes)
    requires All(s, IsTokenByte)
    ensures IsOneLine(s)
  {
    forall i | 0 <= i < |s| ensures !IsLineBreak(s[i]) {
      assert IsTokenByte(s[i]);
    }
  }

  lemma OneLineConcat(a: bytes, b: bytes)
    requires IsOneLine(a) && IsOneLine(b)
    ensures IsOneLine(a + b)
  {
  }

  // ----- case folding -----

  function LowerByte(c: byte): byte {
    if 'A' <= c <= 'Z' then (c as int + 32) as char else c
  }

  function UpperByte(c: byte): byte {
    if 'a' <= c <= 'z' then (c as int - 32) as char else c
  }

  function Lower(s: bytes): (r: bytes)
    ensures |r| == |s|
  {
    seq(|s|, i requires 0 <= i < |s| => LowerByte(s[i]))
  }

  function Upper(s: bytes): (r: bytes)
    ensures |r| == |s|
  {
    seq(|s|, i requires 0 <= i < |s| => UpperByte(s[i]))
  }

  predicate EqIgnoreCase(a: bytes, b: bytes) {
    Lower(a) == Lower(b)
  }

  lemma UpperKeepsFold(s: bytes)
    ensures EqIgnoreCase(Upper(s), s)
    ensures Upper(Upper(s)) == Upper(s)
  {
  }

  lemma Assoc<T>(a: seq<T>, b: seq<T>, c: seq<T>)
    ensures a + b + c == a + (b + c)
  {
  }

  // ----- filtering -----

  /** The elements to keep, in order. */
  function Kept<T>(s: seq<T>, keep: T -> bool): seq<T> {
    if s == [] then []
    else (if keep(s[0]) then [s[0]] else []) + Kept(s[1..], keep)
  }

  /** `part` consists of the elements of `s` at `places`, which are all the places to keep,
      in increasing order. */
  ghost predicate Picks<T>(s: seq<T>, part: seq<T>, keep: T -> bool, places: seq<nat>) {
    && |places| == |part|
    && (forall k :: 0 <= k < |places| ==> places[k] < |s| && part[k] == s[places[k]])
    && (forall j, k :: 0 <= j < k < |places| ==> places[j] < places[k])
    && (forall i: nat :: i < |s| ==> (keep(s[i]) <==> i in places))
  }

  lemma {:induction false} KeptPicks<T>(s: seq<T>, keep: T -> bool) returns (places: seq<nat>)
    ensures Picks(s, Kept(s, keep), keep, places)
  {
    if s == [] {
      places := [];
    } else {
      var tail := KeptPicks(s[1..], keep);
      var moved: seq<nat> := seq(|tail|, k requires 0 <= k < |tail| => tail[k] + 1);
      assert s == [s[0]] + s[1..];
      hide Picks;
      if keep(s[0]) {
        PicksTake(s[0], s[1..], Kept(s[1..], keep), keep, tail, moved);
        places := [0] + moved;
      } else {
        PicksSkip(s[0], s[1..], Kept(s[1..], keep), keep, tail, moved);
        places := moved;
        assert [] + Kept(s[1..], keep) == Kept(s[1..], keep);
      }
    }
  }

  /** The places of a sequence, seen with one more element in front. */
  ghost predicate Moved(tail: seq<nat>, moved: seq<nat>) {
    |moved| == |tail| && (forall k :: 0 <= k < |tail| ==> moved[k] == tail[k] + 1)
  }

  lemma MovedMembers(tail: seq<nat>, moved: seq<nat>, i: nat)
    requires Moved(tail, moved)
    ensures i in moved <==> i > 0 && i - 1 in tail
  {
    if i > 0 && i - 1 in tail {
      var k :| 0 <= k < |tail| && tail[k] == i - 1;
      assert moved[k] == i;
    }
  }

  lemma PicksSkip<T>(x: T, s: seq<T>, part: seq<T>, keep: T -> bool, tail: seq<nat>, moved: seq<nat>)
    requires Picks(s, part, keep, tail) && Moved(tail, moved) && !keep(x)
    ensures Picks([x] + s, part, keep, moved)
  {
    forall j, k | 0 <= j < k < |moved| ensures moved[j] < moved[k] {
      assert tail[j] < tail[k];
    }
    forall i: nat | i < 1 + |s| ensures keep(([x] + s)[i]) <==> i in moved {
      MovedMembers(tail, moved, i);
    }
  }

  lemma PicksTake<T>(x: T, s: seq<T>, part: seq<T>, keep: T -> bool, tail: seq<nat>, moved: seq<nat>)
    requires Picks(s, part, keep, tail) && Moved(tail, moved) && keep(x)
    ensures Picks([x] + s, [x] + part, keep, [0] + moved)
  {
    var places: seq<nat> := [0] + moved;
    forall k | 0 <= k < |places| ensures places[k] < 1 + |s| && ([x] + part)[k] == ([x] + s)[places[k]] {
      assert k > 0 ==> places[k] == moved[k - 1] == tail[k - 1] + 1;
    }
    forall j, k | 0 <= j < k < |places| ensures places[j] < places[k] {
      assert places[k] == moved[k - 1] == tail[k - 1] + 1;
      assert j > 0 ==> places[j] == moved[j - 1] && tail[j - 1] < tail[k - 1];
    }
    forall i: nat | i < 1 + |s| ensures keep(([x] + s)[i]) <==> i in places {
      MovedMembers(tail, moved, i);
    }
  }

  lemma {:induction false} KeptMembers<T>(s: seq<T>, keep: T -> bool, x: T)
    ensures x in Kept(s, keep) <==> x in s && keep(x)
  {
    if s != [] {
      KeptMembers(s[1..], keep, x);
      assert s == [s[0]] + s[1..];
    }
  }

  lemma {:induction false} KeptConcat<T>(a: seq<T>, b: seq<T>, keep: T -> bool)
    ensures Kept(a + b, keep) == Kept(a, keep) + Kept(b, keep)
  {
    if a == [] {
      assert a + b == b;
    } else {
      assert (a + b)[1..] == a[1..] + b;
      KeptConcat(a[1..], b, keep);
      Assoc(if keep(a[0]) then [a[0]] else [], Kept(a[1..], keep), Kept(b, keep));
    }
  }

  // ----- occurrences -----

  /** `part` stands in `s` at `pos`. */
  ghost predicate At(s: bytes, pos: int, part: bytes) {
    0 <= pos && pos + |part| <= |s| && forall k :: 0 <= k < |part| ==> s[pos + k] == part[k]
  }

  lemma AtIsSlice(s: bytes, pos: int, part: bytes)
    ensures At(s, pos, part) <==> 0 <= pos && pos + |part| <= |s| && s[pos..pos + |part|] == part
  {
    if At(s, pos, part) {
      assert s[pos..pos + |part|] == part;
    }
    if 0 <= pos && pos + |part| <= |s| && s[pos..pos + |part|] == part {
      forall k | 0 <= k < |part| ensures s[pos + k] == part[k] {
        assert s[pos..pos + |part|][k] == part[k];
      }
    }
  }

  lemma AtConcat(s: bytes, pos: int, a: bytes, b: bytes)
    ensures At(s, pos, a + b) <==> At(s, pos, a) && At(s, pos + |a|, b)
  {
    var c := a + b;
    if At(s, pos, c) {
      forall k | 0 <= k < |a| ensures s[pos + k] == a[k] {
        assert c[k] == a[k];
      }
      forall k | 0 <= k < |b| ensures s[pos + |a| + k] == b[k] {
        assert c[|a| + k] == b[k];
      }
    }
    if At(s, pos, a) && At(s, pos + |a|, b) {
      forall k | 0 <= k < |c| ensures s[pos + k] == c[k] {
        if k >= |a| {
          assert s[pos + |a| + (k - |a|)] == b[k - |a|];
        }
      }
    }
  }

  lemma AtPrefix(s: bytes, part: bytes)
    ensures At(s, 0, part) <==> part <= s
  {
    AtIsSlice(s, 0, part);
    if |part| <= |s| {
      assert s[0..|part|] == s[..|part|];
    }
  }

  // ----- searching -----

  predicate CrlfAt(s: bytes, i: int) {
    0 <= i && i + 1 < |s| && s[i] == '\r' && s[i + 1] == '\n'
  }

  /** The first CRLF at or after `from`. */
  function FirstCrlf(s: bytes, from: nat): (r: Option<nat>)
    requires from <= |s|
    ensures r.Some? ==> from <= r.value && CrlfAt(s, r.value)
    ensures r.Some? ==> forall j :: from <= j < r.value ==> !CrlfAt(s, j)
    ensures r.None? ==> forall j :: from <= j ==> !CrlfAt(s, j)
    decreases |s| - from
  {
    if CrlfAt(s, from) then Some(from)
    else if from == |s| then None
    else FirstCrlf(s, from + 1)
  }

  /** A line ends where its first CR stands. */
  lemma FirstCrlfAfterLine(s: bytes, pos: nat, line: bytes)
    requires At(s, pos, line) && IsOneLine(line) && CrlfAt(s, pos + |line|)
    ensures FirstCrlf(s, pos) == Some(pos + |line|)
  {
    forall j | pos <= j < pos + |line| ensures !CrlfAt(s, j) {
      assert s[pos + (j - pos)] == line[j - pos];
    }
  }

  lemma FirstCrlfStable(s: bytes, t: bytes, from: nat)
    requires s <= t && from <= |s| && FirstCrlf(s, from).Some?
    ensures FirstCrlf(t, from) == FirstCrlf(s, from)
  {
    var i := FirstCrlf(s, from).value;
    assert forall j :: 0 <= j <= i ==> (CrlfAt(s, j) <==> CrlfAt(t, j));
  }

  lemma AtCrlf(s: bytes, pos: int)
    ensures At(s, pos, CRLF) <==> CrlfAt(s, pos)
  {
    assert CRLF[0] == '\r' && CRLF[1] == '\n' && |CRLF| == 2;
    if At(s, pos, CRLF) {
      assert s[pos + 0] == CRLF[0] && s[pos + 1] == CRLF[1];
    }
  }

  /** The first occurrence of `c`. */
  function FirstOf(s: bytes, c: byte): (r: Option<nat>)
    ensures r.Some? ==> r.value < |s| && s[r.value] == c && c !in s[..r.value]
    ensures r.None? ==> c !in s
  {
    if s == [] then None
    else if s[0] == c then Some(0)
    else match FirstOf(s[1..], c)
         case None => None
         case Some(i) => assert s[..i + 1] == [s[0]] + s[1..][..i]; Some(i + 1)
  }

  lemma FirstOfConcat(a: bytes, c: byte, b: bytes)
    requires c !in a
    ensures FirstOf(a + [c] + b, c) == Some(|a|)
  {
    var s := a + [c] + b;
    assert s[|a|] == c;
    assert forall j :: 0 <= j < |a| ==> s[j] == a[j];
    assert forall i :: |a| < i <= |s| ==> s[..i][|a|] == c;
  }

  // ----- splitting on one separator -----

  /** Rust's `split`: the pieces between separators, one more piece than separators. */
  function SplitOn(s: bytes, c: byte): (r: seq<bytes>)
    ensures |r| > 0
    decreases |s|
  {
    match FirstOf(s, c)
    case None => [s]
    case Some(i) => [s[..i]] + SplitOn(s[i + 1..], c)
  }

  function JoinWith(parts: seq<bytes>, c: byte): bytes
    requires |parts| > 0
  {
    if |parts| == 1 then parts[0] else parts[0] + [c] + JoinWith(parts[1..], c)
  }

  /** Splitting and joining are inverse to each other. */
  lemma {:induction false} JoinSplit(s: bytes, c: byte)
    ensures JoinWith(SplitOn(s, c), c) == s
    ensures forall k :: 0 <= k < |SplitOn(s, c)| ==> c !in SplitOn(s, c)[k]
    decreases |s|
  {
    match FirstOf(s, c)
    case None =>
    case Some(i) =>
      var first, rest := s[..i], SplitOn(s[i + 1..], c);
      JoinSplit(s[i + 1..], c);
      assert SplitOn(s, c) == [first] + rest;
      JoinFirst(first, rest, c);
      assert s == first + [c] + s[i + 1..];
  }

  lemma JoinFirst(first: bytes, rest: seq<bytes>, c: byte)
    requires |rest| > 0
    ensures JoinWith([first] + rest, c) == first + [c] + JoinWith(rest, c)
  {
    assert ([first] + rest)[1..] == rest;
  }

  lemma SplitFirst(a: bytes, c: byte, rest: bytes)
    requires c !in a
    ensures SplitOn(a + [c] + rest, c) == [a] + SplitOn(rest, c)
  {
    var s := a + [c] + rest;
    FirstOfConcat(a, c, rest);
    assert s[..|a|] == a && s[|a| + 1..] == rest;
  }

  lemma {:induction false} SplitJoin(parts: seq<bytes>, c: byte)
    requires |parts| > 0
    requires forall k :: 0 <= k < |parts| ==> c !in parts[k]
    ensures SplitOn(JoinWith(parts, c), c) == parts
  {
    if |parts| > 1 {
      var rest := JoinWith(parts[1..], c);
      SplitJoin(parts[1..], c);
      SplitFirst(parts[0], c, rest);
    }
  }

  // ----- trimming -----

  function TrimStart(s: bytes, p: byte -> bool): bytes {
    if s != [] && p(s[0]) then TrimStart(s[1..], p) else s
  }

  function TrimEnd(s: bytes, p: byte -> bool): bytes {
    if s != [] && p(s[|s| - 1]) then TrimEnd(s[..|s| - 1], p) else s
  }

  function TrimBy(s: bytes, p: byte -> bool): bytes {
    TrimEnd(TrimStart(s, p), p)
  }

  /** `str::trim`. */
  function Trim(s: bytes): bytes {
    TrimBy(s, IsWhite)
  }

  ghost predicate IsTrimmed(s: bytes, p: byte -> bool) {
    s == [] || (!p(s[0]) && !p(s[|s| - 1]))
  }

  /** `v` is what is left of `s` when matching bytes are removed at both ends. */
  ghost predicate TrimsTo(s: bytes, p: byte -> bool, pre: bytes, v: bytes, post: bytes) {
    s == pre + v + post && All(pre, p) && All(post, p) && IsTrimmed(v, p)
  }

  lemma {:induction false} TrimStartPads(pre: bytes, v: bytes, p: byte -> bool)
    requires All(pre, p)
    ensures TrimStart(pre + v, p) == TrimStart(v, p)
  {
    if pre == [] {
      assert pre + v == v;
    } else {
      assert p(pre[0]);
      assert (pre + v)[1..] == pre[1..] + v;
      assert forall i :: 0 <= i < |pre[1..]| ==> pre[1..][i] == pre[i + 1];
      TrimStartPads(pre[1..], v, p);
    }
  }

  lemma {:induction false} TrimEndPads(v: bytes, post: bytes, p: byte -> bool)
    requires All(post, p)
    ensures TrimEnd(v + post, p) == TrimEnd(v, p)
  {
    if post == [] {
      assert v + post == v;
    } else {
      var n := |post| - 1;
      assert p(post[n]);
      assert (v + post)[..|v + post| - 1] == v + post[..n];
      TrimEndPads(v, post[..n], p);
    }
  }

  /** The trimmed text is the only one that can stand between two paddings. */
  lemma TrimIsUnique(s: bytes, p: byte -> bool, pre: bytes, v: bytes, post: bytes)
    requires TrimsTo(s, p, pre, v, post)
    ensures TrimBy(s, p) == v
  {
    assert s == pre + (v + post);
    TrimStartPads(pre, v + post, p);
    if v == [] {
      assert v + post == post + [];
      TrimStartPads(post, [], p);
    } else {
      assert (v + post)[0] == v[0];
      TrimEndPads(v, post, p);
    }
  }

  lemma {:induction false} TrimStartSplits(s: bytes, p: byte -> bool) returns (pre: bytes)
    ensures s == pre + TrimStart(s, p) && All(pre, p)
    ensures TrimStart(s, p) == [] || !p(TrimStart(s, p)[0])
  {
    if s != [] && p(s[0]) {
      var rest := TrimStartSplits(s[1..], p);
      pre := [s[0]] + rest;
    } else {
      pre := [];
    }
  }

  lemma {:induction false} TrimEndSplits(s: bytes, p: byte -> bool) returns (post: bytes)
    ensures s == TrimEnd(s, p) + post && All(post, p)
    ensures TrimEnd(s, p) == [] || !p(TrimEnd(s, p)[|TrimEnd(s, p)| - 1])
  {
    if s != [] && p(s[|s| - 1]) {
      var rest := TrimEndSplits(s[..|s| - 1], p);
      post := rest + [s[|s| - 1]];
    } else {
      post := [];
    }
  }

  /** Trimming always splits a text into padding, a trimmed core, and padding. */
  lemma TrimSplits(s: bytes, p: byte -> bool) returns (pre: bytes, post: bytes)
    ensures TrimsTo(s, p, pre, TrimBy(s, p), post)
  {
    pre := TrimStartSplits(s, p);
    var t := TrimStart(s, p);
    post := TrimEndSplits(t, p);
    var v := TrimEnd(t, p);
    if v != [] {
      assert v[0] == t[0];
    }
  }

  lemma TrimOfTrimmed(v: bytes, p: byte -> bool)
    requires IsTrimmed(v, p)
    ensures TrimBy(v, p) == v
  {
    assert v == [] + v + [];
    TrimIsUnique(v, p, [], v, []);
  }

  // ----- numbers -----

  function DigitValue(c: byte): nat
    requires IsDigit(c)
  {
    c as int - '0' as int
  }

  function HexDigitValue(c: byte): (v: nat)
    requires IsHex(c)
    ensures v < 16
  {
    if IsDigit(c) then c as int - '0' as int
    else if 'a' <= c <= 'f' then c as int - 'a' as int + 10
    else c as int - 'A' as int + 10
  }

  ghost predicate AllDigits(s: bytes) {
    All(s, IsDigit)
  }

  function DecimalValue(s: bytes): nat
    requires AllDigits(s)
  {
    if s == [] then 0 else 10 * DecimalValue(s[..|s| - 1]) + DigitValue(s[|s| - 1])
  }

  function Decimal(n: nat): bytes {
    if n < 10 then [(n + '0' as int) as char] else Decimal(n / 10) + [(n % 10 + '0' as int) as char]
  }

  lemma {:induction false} DecimalRoundTrip(n: nat)
    ensures Decimal(n) != [] && AllDigits(Decimal(n))
    ensures DecimalValue(Decimal(n)) == n
  {
    if n >= 10 {
      DecimalRoundTrip(n / 10);
      var d := Decimal(n);
      assert d[..|d| - 1] == Decimal(n / 10);
    } else {
      assert Decimal(n)[..0] == [];
    }
  }

  /** Rust's `parse` for an unsigned integer type: an optional `+`, digits, in range. */
  function ParseUnsigned(s: bytes, max: nat): Option<nat> {
    var digits := if s != [] && s[0] == '+' then s[1..] else s;
    if digits == [] || !AllOf(digits, IsDigit) || DecimalValue(digits) > max then None
    else Some(DecimalValue(digits))
  }

  lemma ParseUnsignedDecimal(n: nat, max: nat)
    requires n <= max
    ensures ParseUnsigned(Decimal(n), max) == Some(n)
  {
    DecimalRoundTrip(n);
    assert IsDigit(Decimal(n)[0]);
  }

  function Pow10(k: nat): nat {
    if k == 0 then 1 else 10 * Pow10(k - 1)
  }

  lemma {:induction false} DecimalIsShort(n: nat, k: nat)
    requires k > 0 && n < Pow10(k)
    ensures |Decimal(n)| <= k
  {
    if n >= 10 {
      DecimalIsShort(n / 10, k - 1);
    }
  }

  /** A 64-bit number has at most twenty digits. */
  lemma DecimalFits(n: nat)
    requires n <= MAX_U64
    ensures |Decimal(n)| <= 20
  {
    assert Pow10(5) == 100_000;
    assert Pow10(10) == 10_000_000_000;
    assert Pow10(15) == 1_000_000_000_000_000;
    assert MAX_U64 < Pow10(20);
    hide Decimal;
    DecimalIsShort(n, 20);
  }

  lemma DecimalIsPlain(n: nat)
    ensures All(Decimal(n), IsPrintable) && IsOneLine(Decimal(n)) && IsTrimmed(Decimal(n), IsWhite)
    ensures IsTrimmed(Decimal(n), IsOws)
  {
    DecimalRoundTrip(n);
    var d := Decimal(n);
    forall i | 0 <= i < |d| ensures IsDigit(d[i]) && IsPrintable(d[i]) && !IsWhite(d[i]) && !IsLineBreak(d[i]) {
      assert IsDigit(d[i]);
    }
  }

  // ----- text made safe to repeat -----

  predicate IsShown(c: char) {
    ' ' <= c <= '~'
  }

  function Shown(s: string): string {
    if s == [] then [] else (if IsShown(s[0]) then [s[0]] else []) + Shown(s[1..])
  }

  /** Printable ASCII only, at most 64 characters, never empty. */
  function Sanitize(s: string, fallback: string): string {
    var shown := Shown(s);
    if shown == [] then fallback else if |shown| > 64 then shown[..64] else shown
  }

  lemma {:induction false} ShownIsPrintable(s: string)
    ensures All(Shown(s), IsShown)
  {
    if s != [] {
      ShownIsPrintable(s[1..]);
    }
  }

  lemma SanitizeIsPrintable(s: string, fallback: string)
    requires fallback != [] && |fallback| <= 64 && All(fallback, IsShown)
    ensures All(Sanitize(s, fallback), IsShown) && IsOneLine(Sanitize(s, fallback))
    ensures 1 <= |Sanitize(s, fallback)| <= 64
  {
    ShownIsPrintable(s);
    var r := Sanitize(s, fallback);
    forall i | 0 <= i < |r| ensures IsShown(r[i]) && !IsLineBreak(r[i]) {
      assert Shown(s) != [] ==> r[i] == Shown(s)[i];
    }
  }

  /** A short printable text is repeated as it is. */
  lemma {:induction false} ShownKeepsPrintable(s: string)
    requires All(s, IsShown)
    ensures Shown(s) == s
  {
    if s != [] {
      assert IsShown(s[0]);
      assert forall i :: 0 <= i < |s[1..]| ==> s[1..][i] == s[i + 1];
      ShownKeepsPrintable(s[1..]);
      assert s == [s[0]] + s[1..];
    }
  }

  lemma SanitizeIsExact(s: string, fallback: string)
    ensures All(s, IsShown) && 1 <= |s| <= 64 ==> Sanitize(s, fallback) == s
    ensures Sanitize(Sanitize(s, fallback), fallback) == Sanitize(s, fallback)
            || Sanitize(s, fallback) == fallback
  {
    ShownIsPrintable(s);
    if All(s, IsShown) {
      ShownKeepsPrintable(s);
    }
    var r := Sanitize(s, fallback);
    if Shown(s) != [] {
      assert forall i :: 0 <= i < |r| ==> r[i] == Shown(s)[i];
      ShownKeepsPrintable(r);
    }
  }

  lemma {:induction false} ShownIsKept(s: string)
    ensures Shown(s) == Kept(s, IsShown)
  {
    if s != [] {
      ShownIsKept(s[1..]);
    }
  }

  /** In general: of all printable characters and spaces, in order, the first 64, or the fallback if
      there are none. */
  lemma SanitizeByRule(s: string, fallback: string)
    ensures exists shown, places ::
              && Picks(s, shown, IsShown, places)
              && Sanitize(s, fallback)
                 == if |shown| == 0 then fallback else if |shown| <= 64 then shown else shown[..64]
  {
    hide Picks;
    ShownIsKept(s);
    var places := KeptPicks(s, IsShown);
    assert Picks(s, Shown(s), IsShown, places);
  }

  const MAX_U16: nat := 0xFFFF
  const MAX_U64: nat := 0xFFFF_FFFF_FFFF_FFFF
}
