/** Validating the request-target a client names. */
module Target {
  import opened Octets
  import opened Errors

  const MAX_TARGET_LEN: nat := 4096

  datatype NormalizedTarget = NormalizedTarget(path: string, query: Option<string>)

  /** The length of a text in UTF-8. */
  function Utf8Len(s: string): nat {
    if s == [] then 0
    else
      var n := s[0] as int;
      (if n < 0x80 then 1 else if n < 0x800 then 2 else if n < 0x1_0000 then 3 else 4) + Utf8Len(s[1..])
  }

  // ----- percent escapes -----

  predicate EscapeAt(s: string, i: int) {
    0 <= i && i + 2 < |s| && IsHex(s[i + 1]) && IsHex(s[i + 2])
  }

  function CheckEscapesFrom(s: string, i: nat): Result<(), TargetError>
    requires i <= |s|
    decreases |s| - i
  {
    if i == |s| then Ok(())
    else if s[i] != '%' then CheckEscapesFrom(s, i + 1)
    else if EscapeAt(s, i) then CheckEscapesFrom(s, i + 3)
    else Err(BadEscape)
  }

  method CheckEscapes(s: string) returns (r: Result<(), TargetError>)
    ensures r == CheckEscapesFrom(s, 0)
  {
    var i := 0;
    while i < |s|
      invariant i <= |s| && CheckEscapesFrom(s, i) == CheckEscapesFrom(s, 0)
    {
      if s[i] == '%' {
        if i + 2 >= |s| {
          return Err(BadEscape);
        }
        if !IsHex(s[i + 1]) || !IsHex(s[i + 2]) {
          return Err(BadEscape);
        }
        i := i + 3;
      } else {
        i := i + 1;
      }
    }
    return Ok(());
  }

  function DecodeEscape(hi: char, lo: char): byte
    requires IsHex(hi) && IsHex(lo)
  {
    (16 * HexDigitValue(hi) + HexDigitValue(lo)) as char
  }

  /** Percent-decoding; `None` stands for a malformed escape. */
  function PercentDecode(s: string): Option<bytes> {
    if s == [] then Some([])
    else if s[0] != '%' then
      match PercentDecode(s[1..])
      case None => None
      case Some(rest) => Some([s[0]] + rest)
    else if !EscapeAt(s, 0) then None
    else
      match PercentDecode(s[3..])
      case None => None
      case Some(rest) => Some([DecodeEscape(s[1], s[2])] + rest)
  }

  function Prepend(out: bytes, r: Option<bytes>): Option<bytes> {
    match r
    case None => None
    case Some(rest) => Some(out + rest)
  }

  method DecodeSegment(s: string) returns (r: Option<bytes>)
    ensures r == PercentDecode(s)
  {
    var out: bytes := [];
    var i := 0;
    assert s[0..] == s && (PercentDecode(s).Some? ==> out + PercentDecode(s).value == PercentDecode(s).value);
    while i < |s|
      invariant i <= |s|
      invariant Prepend(out, PercentDecode(s[i..])) == PercentDecode(s)
    {
      var rest := s[i..];
      if s[i] == '%' {
        if i + 2 >= |s| || !IsHex(s[i + 1]) || !IsHex(s[i + 2]) {
          return None;
        }
        assert rest[3..] == s[i + 3..] && rest[1] == s[i + 1] && rest[2] == s[i + 2];
        ghost var tail := PercentDecode(s[i + 3..]);
        if tail.Some? {
          Assoc(out, [DecodeEscape(s[i + 1], s[i + 2])], tail.value);
        }
        out := out + [DecodeEscape(s[i + 1], s[i + 2])];
        i := i + 3;
      } else {
        assert rest[1..] == s[i + 1..];
        ghost var tail := PercentDecode(s[i + 1..]);
        if tail.Some? {
          Assoc(out, [s[i]], tail.value);
        }
        out := out + [s[i]];
        i := i + 1;
      }
    }
    assert PercentDecode(s[i..]) == Some([]);
    assert out + [] == out;
    return Some(out);
  }

  // ----- segments -----

  predicate IsSeparator(c: byte) {
    c == '/' || c == '\\'
  }

  predicate HasSeparator(s: bytes) {
    '/' in s || '\\' in s
  }

  predicate IsDots(s: bytes) {
    s == "." || s == ".."
  }

  /** The checks on one segment; only the last one may be empty. */
  function CheckSegment(segment: string, isLast: bool, allowEncodedSeparators: bool): Result<(), TargetError> {
    if segment == [] then (if isLast then Ok(()) else Err(EmptySegment))
    else
      match PercentDecode(segment)
      case None => Err(BadEscape)
      case Some(decoded) =>
        if IsDots(decoded) then Err(DotSegment)
        else if !allowEncodedSeparators && HasSeparator(decoded) then Err(EncodedSeparator)
        else Ok(())
  }

  function CheckSegments(segments: seq<string>, allowEncodedSeparators: bool): Result<(), TargetError> {
    if segments == [] then Ok(())
    else
      match CheckSegment(segments[0], |segments| == 1, allowEncodedSeparators)
      case Err(e) => Err(e)
      case Ok(_) => CheckSegments(segments[1..], allowEncodedSeparators)
  }

  function CheckPath(path: string, allowEncodedSeparators: bool): Result<(), TargetError>
    requires path != []
  {
    match CheckEscapesFrom(path, 0)
    case Err(e) => Err(e)
    case Ok(_) => CheckSegments(SplitOn(path[1..], '/'), allowEncodedSeparators)
  }

  method WalkPath(path: string, allowEncodedSeparators: bool) returns (r: Result<(), TargetError>)
    requires path != []
    ensures r == CheckPath(path, allowEncodedSeparators)
  {
    var escapes := CheckEscapes(path);
    if escapes.Err? {
      return escapes;
    }
    var segments := SplitOn(path[1..], '/');
    var last := |segments| - 1;
    for i := 0 to |segments|
      invariant CheckSegments(segments[i..], allowEncodedSeparators)
                == CheckSegments(segments, allowEncodedSeparators)
    {
      var segment := segments[i];
      assert segments[i..][1..] == segments[i + 1..];
      if segment == [] {
        if i != last {
          return Err(EmptySegment);
        }
      } else {
        var decoded := DecodeSegment(segment);
        if decoded.None? {
          return Err(BadEscape);
        }
        if decoded.value == "." || decoded.value == ".." {
          return Err(DotSegment);
        }
        if !allowEncodedSeparators && HasSeparator(decoded.value) {
          return Err(EncodedSeparator);
        }
      }
    }
    return Ok(());
  }

  // ----- the whole target -----

  function PathOf(target: string): string {
    match FirstOf(target, '?')
    case None => target
    case Some(i) => target[..i]
  }

  function QueryOf(target: string): Option<string> {
    match FirstOf(target, '?')
    case None => None
    case Some(i) => Some(target[i + 1..])
  }

  function Normalize(target: string, allowEncodedSeparators: bool): Result<NormalizedTarget, TargetError> {
    if Utf8Len(target) > MAX_TARGET_LEN then Err(TargetError.TooLong)
    else if !AllOf(target, IsPrintable) then Err(NonAscii)
    else if !("/" <= target) then Err(NotOriginForm)
    else if "//" <= target then Err(ProtocolRelative)
    else if '#' in target then Err(Fragment)
    else
      var path, query := PathOf(target), QueryOf(target);
      assert target[0] == '/' && path[0] == '/';
      match CheckPath(path, allowEncodedSeparators)
      case Err(e) => Err(e)
      case Ok(_) =>
        if query.Some? && CheckEscapesFrom(query.value, 0).Err? then Err(BadEscape)
        else Ok(NormalizedTarget(path[1..], query))
  }

  // ----- exactly which targets are accepted -----

  /** Every `%` introduces two hexadecimal digits. */
  ghost predicate WellEscaped(s: string) {
    forall i :: 0 <= i < |s| && s[i] == '%' ==> EscapeAt(s, i)
  }

  lemma {:induction false} EscapesAreExact(s: string, i: nat)
    requires i <= |s|
    ensures CheckEscapesFrom(s, i).Ok? <==> forall j :: i <= j < |s| && s[j] == '%' ==> EscapeAt(s, j)
    ensures CheckEscapesFrom(s, i).Err? ==> CheckEscapesFrom(s, i) == Err(BadEscape)
    decreases |s| - i
  {
    if i < |s| {
      if s[i] != '%' {
        EscapesAreExact(s, i + 1);
      } else if EscapeAt(s, i) {
        EscapesAreExact(s, i + 3);
      }
    }
  }

  /** Decoding succeeds exactly on well-escaped texts. */
  lemma {:induction false} DecodesIffWellEscaped(s: string)
    ensures PercentDecode(s).Some? <==> WellEscaped(s)
  {
    if s != [] {
      var k := if s[0] == '%' && EscapeAt(s, 0) then 3 else 1;
      if s[0] != '%' || EscapeAt(s, 0) {
        DecodesIffWellEscaped(s[k..]);
        EscapesShift(s, k);
      }
    }
  }

  lemma EscapesShift(s: string, k: nat)
    requires k <= |s| && forall j :: 0 <= j < k && s[j] == '%' ==> EscapeAt(s, j)
    ensures WellEscaped(s) <==> WellEscaped(s[k..])
  {
    var t := s[k..];
    assert forall j :: 0 <= j < |t| ==> t[j] == s[j + k] && (EscapeAt(t, j) <==> EscapeAt(s, j + k));
    if WellEscaped(t) {
      forall j | 0 <= j < |s| && s[j] == '%' ensures EscapeAt(s, j) {
        if j >= k {
          assert t[j - k] == s[j];
        }
      }
    }
  }

  function Decoded(s: string): bytes
    requires WellEscaped(s)
  {
    DecodesIffWellEscaped(s);
    PercentDecode(s).value
  }

  /** Pieces of a well-escaped text are well escaped: no escape straddles a separator. */
  lemma {:induction false} PiecesAreWellEscaped(s: string, c: char)
    requires WellEscaped(s) && !IsHex(c) && c != '%'
    ensures forall k :: 0 <= k < |SplitOn(s, c)| ==> WellEscaped(SplitOn(s, c)[k])
    decreases |s|
  {
    match FirstOf(s, c)
    case None =>
    case Some(i) =>
      var first, rest := s[..i], s[i + 1..];
      forall j | 0 <= j < i && first[j] == '%' ensures EscapeAt(first, j) {
        assert EscapeAt(s, j);
        assert s[j + 1] != s[i] && s[j + 2] != s[i];
      }
      assert forall j :: 0 <= j < |rest| ==> rest[j] == s[j + i + 1] && (EscapeAt(rest, j) <==> EscapeAt(s, j + i + 1));
      PiecesAreWellEscaped(rest, c);
      assert SplitOn(s, c) == [first] + SplitOn(rest, c);
  }

  /** What a segment must satisfy. */
  ghost predicate GoodSegment(segment: string, isLast: bool, allowEncodedSeparators: bool) {
    if segment == [] then isLast
    else WellEscaped(segment) && !IsDots(Decoded(segment))
         && (allowEncodedSeparators || !HasSeparator(Decoded(segment)))
  }

  ghost predicate GoodSegments(segments: seq<string>, allowEncodedSeparators: bool) {
    forall i :: 0 <= i < |segments| ==> GoodSegment(segments[i], i == |segments| - 1, allowEncodedSeparators)
  }

  lemma {:induction false} SegmentsAreExact(segments: seq<string>, allow: bool)
    ensures CheckSegments(segments, allow).Ok? <==> GoodSegments(segments, allow)
  {
    if segments != [] {
      SegmentsAreExact(segments[1..], allow);
      DecodesIffWellEscaped(segments[0]);
      if GoodSegments(segments[1..], allow) && GoodSegment(segments[0], |segments| == 1, allow) {
        forall i | 0 <= i < |segments| ensures GoodSegment(segments[i], i == |segments| - 1, allow) {
          if i > 0 {
            assert segments[i] == segments[1..][i - 1];
          }
        }
      }
      if GoodSegments(segments, allow) {
        forall i | 0 <= i < |segments[1..]|
          ensures GoodSegment(segments[1..][i], i == |segments[1..]| - 1, allow)
        {
          assert segments[1..][i] == segments[i + 1];
        }
      }
    }
  }

  /** The declarative set of accepted targets. */
  ghost predicate Acceptable(target: string, allow: bool) {
    && |target| <= MAX_TARGET_LEN && All(target, IsPrintable) && '#' !in target
    && target != [] && target[0] == '/' && (|target| > 1 ==> target[1] != '/')
    && WellEscaped(target)
    && GoodSegments(SplitOn(PathOf(target)[1..], '/'), allow)
  }

  function Reassemble(t: NormalizedTarget): string {
    "/" + t.path + (match t.query
                    case None => ""
                    case Some(q) => "?" + q)
  }

  lemma {:induction false} AsciiLength(s: string)
    requires All(s, IsPrintable)
    ensures Utf8Len(s) == |s|
  {
    if s != [] {
      assert IsPrintable(s[0]);
      assert forall i :: 0 <= i < |s[1..]| ==> s[1..][i] == s[i + 1];
      AsciiLength(s[1..]);
    }
  }

  /** The question mark splits the escapes of a target into those of path and query. */
  lemma EscapesOfParts(target: string)
    ensures WellEscaped(target)
            <==> WellEscaped(PathOf(target)) && (QueryOf(target).Some? ==> WellEscaped(QueryOf(target).value))
  {
    match FirstOf(target, '?')
    case None =>
    case Some(i) =>
      var path, query := target[..i], target[i + 1..];
      assert forall j :: 0 <= j < i ==> path[j] == target[j];
      assert forall j :: 0 <= j < |query| ==>
        query[j] == target[j + i + 1] && (EscapeAt(query, j) <==> EscapeAt(target, j + i + 1));
      if WellEscaped(target) {
        forall j | 0 <= j < i && path[j] == '%' ensures EscapeAt(path, j) {
          assert EscapeAt(target, j);
          assert target[j + 1] != target[i] && target[j + 2] != target[i];
        }
      }
      if WellEscaped(path) && WellEscaped(query) {
        forall j | 0 <= j < |target| && target[j] == '%' ensures EscapeAt(target, j) {
          if j < i {
            assert EscapeAt(path, j);
          } else {
            assert EscapeAt(query, j - i - 1);
          }
        }
      }
  }

  /** Acceptance is exactly the declarative set. */
  lemma NormalizeIsExact(target: string, allow: bool)
    ensures Normalize(target, allow).Ok? <==> Acceptable(target, allow)
  {
    hide FirstOf;
    hide Utf8Len;
    var path, query := PathOf(target), QueryOf(target);
    EscapesAreExact(path, 0);
    if query.Some? {
      EscapesAreExact(query.value, 0);
    }
    EscapesOfParts(target);
    if All(target, IsPrintable) {
      AsciiLength(target);
    }
    if target != [] && target[0] == '/' {
      assert path != [] && path[0] == '/';
      SegmentsAreExact(SplitOn(path[1..], '/'), allow);
    }
  }

  /** Nothing of an accepted target is lost, changed or added. */
  lemma NormalizeIsLossless(target: string, allow: bool)
    requires Normalize(target, allow).Ok?
    ensures Reassemble(Normalize(target, allow).value) == target
    ensures Normalize(Reassemble(Normalize(target, allow).value), allow) == Normalize(target, allow)
    ensures '?' !in Normalize(target, allow).value.path
  {
    hide FirstOf;
    var t := Normalize(target, allow).value;
    var path := PathOf(target);
    assert path[0] == '/' by {
      assert target[0] == '/';
    }
    assert path == "/" + t.path;
    assert '?' !in path;
    assert forall i :: 0 <= i < |t.path| ==> t.path[i] == path[i + 1];
    match FirstOf(target, '?')
    case None =>
      assert Reassemble(t) == target;
    case Some(i) =>
      assert target == path + ("?" + t.query.value);
      assert Reassemble(t) == target;
  }

  /** After the escapes of a path are checked, decoding a segment never fails. */
  lemma DecodingNeverFails(path: string)
    requires path != [] && CheckEscapesFrom(path, 0).Ok?
    ensures forall k :: 0 <= k < |SplitOn(path[1..], '/')| ==> PercentDecode(SplitOn(path[1..], '/')[k]).Some?
  {
    EscapesAreExact(path, 0);
    var tail := path[1..];
    assert forall j :: 0 <= j < |tail| ==> tail[j] == path[j + 1] && (EscapeAt(tail, j) <==> EscapeAt(path, j + 1));
    PiecesAreWellEscaped(tail, '/');
    forall k | 0 <= k < |SplitOn(tail, '/')| ensures PercentDecode(SplitOn(tail, '/')[k]).Some? {
      DecodesIffWellEscaped(SplitOn(tail, '/')[k]);
    }
  }
}
