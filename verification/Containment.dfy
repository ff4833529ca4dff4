/** An accepted path stays beneath its base whichever order an origin decodes and removes dot
    segments in: sections 2.1, 3.3 and 5.2.4 of RFC 3986. */
module Containment {
  import opened Octets
  import opened Target

  // ----- splitting at both separators -----

  function FirstSeparator(s: bytes): (r: Option<nat>)
    ensures r.Some? ==> r.value < |s| && IsSeparator(s[r.value]) && !HasSeparator(s[..r.value])
    ensures r.None? ==> !HasSeparator(s)
  {
    if s == [] then None
    else if IsSeparator(s[0]) then Some(0)
    else match FirstSeparator(s[1..])
         case None => None
         case Some(i) => assert s[..i + 1] == [s[0]] + s[1..][..i]; Some(i + 1)
  }

  /** The segments seen by an origin that takes `\` for `/`. */
  function SplitSeparators(s: bytes): (r: seq<bytes>)
    ensures |r| > 0
    ensures forall k :: 0 <= k < |r| ==> !HasSeparator(r[k])
    decreases |s|
  {
    match FirstSeparator(s)
    case None => [s]
    case Some(i) => [s[..i]] + SplitSeparators(s[i + 1..])
  }

  lemma SplitSeparatorsFirst(a: bytes, c: byte, rest: bytes)
    requires !HasSeparator(a) && IsSeparator(c)
    ensures SplitSeparators(a + [c] + rest) == [a] + SplitSeparators(rest)
  {
    var s := a + [c] + rest;
    assert s[|a|] == c;
    assert forall j :: 0 <= j < |a| ==> s[j] == a[j];
    assert forall i :: |a| < i <= |s| ==> s[..i][|a|] == c;
    assert s[..|a|] == a && s[|a| + 1..] == rest;
  }

  /** Without a backslash both kinds of origin see the same segments. */
  lemma {:induction false} SplitsAgree(s: bytes)
    requires '\\' !in s
    ensures SplitSeparators(s) == SplitOn(s, '/')
    decreases |s|
  {
    match FirstOf(s, '/')
    case None =>
      assert forall i :: 0 <= i < |s| ==> s[i] in s && !IsSeparator(s[i]);
    case Some(i) =>
      var a, rest := s[..i], s[i + 1..];
      assert s == a + ['/'] + rest;
      SplitSeparatorsFirst(a, '/', rest);
      SplitsAgree(rest);
  }

  // ----- decoding and splitting commute -----

  lemma {:induction false} DecodeConcat(a: string, b: string)
    requires WellEscaped(a) && WellEscaped(b)
    ensures WellEscaped(a + b) && Decoded(a + b) == Decoded(a) + Decoded(b)
    decreases |a|
  {
    var s := a + b;
    if a == [] {
      assert s == b;
    } else {
      var k := if a[0] == '%' then 3 else 1;
      assert a[0] == '%' ==> EscapeAt(a, 0);
      EscapesShift(a, k);
      DecodeConcat(a[k..], b);
      assert s[k..] == a[k..] + b;
      EscapesShift(s, k);
      DecodesIffWellEscaped(s);
      DecodesIffWellEscaped(a);
    }
  }

  lemma DecodePlainByte(c: char)
    requires c != '%'
    ensures WellEscaped([c]) && Decoded([c]) == [c]
  {
    DecodesIffWellEscaped([c]);
    assert [c][1..] == [];
  }

  function DecodeAll(pieces: seq<string>): (r: seq<bytes>)
    requires forall k :: 0 <= k < |pieces| ==> WellEscaped(pieces[k])
    ensures |r| == |pieces|
    ensures forall k :: 0 <= k < |r| ==> r[k] == Decoded(pieces[k])
  {
    seq(|pieces|, k requires 0 <= k < |pieces| => Decoded(pieces[k]))
  }

  /** Decoding keeps the separators and decodes between them. */
  lemma DecodeFirstPiece(s: string, i: nat)
    requires WellEscaped(s) && FirstOf(s, '/') == Some(i)
    ensures WellEscaped(s[..i]) && WellEscaped(s[i + 1..])
    ensures Decoded(s) == Decoded(s[..i]) + ['/'] + Decoded(s[i + 1..])
  {
    PiecesAreWellEscaped(s, '/');
    var first, rest := s[..i], s[i + 1..];
    assert SplitOn(s, '/') == [first] + SplitOn(rest, '/');
    assert SplitOn(s, '/')[0] == first;
    forall j | 0 <= j < |rest| && rest[j] == '%' ensures EscapeAt(rest, j) {
      assert EscapeAt(s, j + i + 1);
    }
    DecodePlainByte('/');
    DecodeConcat(first, "/");
    DecodeConcat(first + "/", rest);
    assert s == first + "/" + rest;
  }

  lemma {:induction false} CleanPiecesCommute(s: string)
    requires WellEscaped(s)
    requires forall k :: 0 <= k < |SplitOn(s, '/')| ==>
      WellEscaped(SplitOn(s, '/')[k]) && !HasSeparator(Decoded(SplitOn(s, '/')[k]))
    ensures SplitSeparators(Decoded(s)) == DecodeAll(SplitOn(s, '/'))
    ensures SplitOn(Decoded(s), '/') == DecodeAll(SplitOn(s, '/'))
    decreases |s|
  {
    hide Decoded;
    hide FirstOf;
    hide FirstSeparator;
    var pieces := SplitOn(s, '/');
    match FirstOf(s, '/')
    case None =>
      assert pieces == [s] && DecodeAll(pieces) == [Decoded(s)];
      assert !HasSeparator(Decoded(pieces[0]));
    case Some(i) =>
      var first, rest := s[..i], s[i + 1..];
      DecodeFirstPiece(s, i);
      assert pieces == [first] + SplitOn(rest, '/');
      assert pieces[0] == first;
      forall k | 0 <= k < |SplitOn(rest, '/')|
        ensures WellEscaped(SplitOn(rest, '/')[k]) && !HasSeparator(Decoded(SplitOn(rest, '/')[k]))
      {
        assert SplitOn(rest, '/')[k] == pieces[k + 1];
      }
      CleanPiecesCommute(rest);
      SplitSeparatorsFirst(Decoded(first), '/', Decoded(rest));
      SplitFirst(Decoded(first), '/', Decoded(rest));
      assert DecodeAll(pieces) == [Decoded(first)] + DecodeAll(SplitOn(rest, '/'));
  }

  /** Splitting then decoding is decoding then splitting exactly when no segment decodes to
      something that holds a separator. */
  lemma SplitAndDecodeCommuteExactly(s: string)
    requires WellEscaped(s)
    ensures forall k :: 0 <= k < |SplitOn(s, '/')| ==> WellEscaped(SplitOn(s, '/')[k])
    ensures SplitSeparators(Decoded(s)) == DecodeAll(SplitOn(s, '/'))
            <==> forall k :: 0 <= k < |SplitOn(s, '/')| ==> !HasSeparator(Decoded(SplitOn(s, '/')[k]))
  {
    hide Decoded;
    hide SplitOn;
    PiecesAreWellEscaped(s, '/');
    var pieces := SplitOn(s, '/');
    if SplitSeparators(Decoded(s)) == DecodeAll(pieces) {
      forall k | 0 <= k < |pieces| ensures !HasSeparator(Decoded(pieces[k])) {
        assert Decoded(pieces[k]) == SplitSeparators(Decoded(s))[k];
      }
    } else if forall k :: 0 <= k < |pieces| ==> !HasSeparator(Decoded(pieces[k])) {
      CleanPiecesCommute(s);
    }
  }

  // ----- removing dot segments: section 5.2.4 of RFC 3986, step by step -----

  /** Step 2E: the length of the first segment with its initial slash. */
  function SegmentLength(input: bytes): (n: nat)
    requires input != []
    ensures 1 <= n <= |input|
  {
    match FirstOf(input[1..], '/')
    case None => |input|
    case Some(i) => i + 1
  }

  /** Steps 2C: the output without its last segment and the slash before it. */
  function WithoutLast(output: bytes): bytes {
    if output == [] then []
    else if output[|output| - 1] == '/' then output[..|output| - 1]
    else WithoutLast(output[..|output| - 1])
  }

  function RemoveDots(input: bytes, output: bytes): bytes
    decreases |input|
  {
    if input == [] then output
    else if "../" <= input then RemoveDots(input[3..], output)
    else if "./" <= input then RemoveDots(input[2..], output)
    else if "/./" <= input then RemoveDots(input[2..], output)
    else if input == "/." then RemoveDots("/", output)
    else if "/../" <= input then RemoveDots(input[3..], WithoutLast(output))
    else if input == "/.." then RemoveDots("/", WithoutLast(output))
    else if IsDots(input) then output
    else
      var n := SegmentLength(input);
      RemoveDots(input[n..], output + input[..n])
  }

  function RemoveDotSegments(path: bytes): bytes {
    RemoveDots(path, [])
  }

  /** No segment is `.` or `..`. */
  ghost predicate NoDots(path: bytes) {
    forall k :: 0 <= k < |SplitOn(path, '/')| ==> !IsDots(SplitOn(path, '/')[k])
  }

  lemma FirstSegmentSplits(path: bytes)
    requires path != [] && path[0] == '/'
    ensures var n := SegmentLength(path);
            && '/' !in path[1..n] && (path[n..] == [] || path[n..][0] == '/')
            && SplitOn(path, '/') == [[]] + (if path[n..] == [] then [path[1..n]]
                                             else [path[1..n]] + SplitOn(path[n..], '/')[1..])
  {
    var tail, n := path[1..], SegmentLength(path);
    var empty: bytes := [];
    SplitFirst(empty, '/', tail);
    assert path == empty + ['/'] + tail;
    if n < |path| {
      var more := path[n + 1..];
      assert tail[..n - 1] == path[1..n] && tail[n..] == more;
      SplitFirst(empty, '/', more);
      assert path[n..] == empty + ['/'] + more;
      assert SplitOn(path[n..], '/')[1..] == SplitOn(more, '/');
    } else {
      assert tail == path[1..n];
    }
  }

  lemma NoDotsAfterFirst(path: bytes)
    requires path != [] && path[0] == '/' && NoDots(path)
    ensures var n := SegmentLength(path); !IsDots(path[1..n]) && NoDots(path[n..])
  {
    hide IsDots;
    hide SegmentLength;
    var n, pieces := SegmentLength(path), SplitOn(path, '/');
    FirstSegmentSplits(path);
    assert pieces[1] == path[1..n];
    var rest := path[n..];
    if rest == [] {
      NoDotsEmpty();
    } else {
      NoDotsTail(rest, pieces);
    }
  }

  lemma NoDotsTail(rest: bytes, pieces: seq<bytes>)
    requires rest != [] && rest[0] == '/'
    requires |pieces| > 2 && pieces[2..] == SplitOn(rest, '/')[1..]
    requires forall k :: 0 <= k < |pieces| ==> !IsDots(pieces[k])
    ensures NoDots(rest)
  {
    hide IsDots;
    FirstSegmentSplits(rest);
    NoDotsEmpty();
    var own := SplitOn(rest, '/');
    forall k | 0 <= k < |own| ensures !IsDots(own[k]) {
      if k == 0 {
        assert own[0] == [] && !IsDots(SplitOn([], '/')[0]);
      } else {
        assert own[k] == own[1..][k - 1] == pieces[2..][k - 1];
      }
    }
  }

  lemma NoDotsEmpty()
    ensures NoDots([]) && SplitOn([], '/') == [[]]
  {
  }

  /** None of the steps before 2E applies to a segment that is not a dot segment. */
  lemma NotADotStep(path: bytes, segment: bytes, rest: bytes)
    requires path == "/" + segment + rest && !IsDots(segment) && '/' !in segment
    requires rest == [] || rest[0] == '/'
    ensures !("../" <= path) && !("./" <= path) && !("/./" <= path) && path != "/."
    ensures !("/../" <= path) && path != "/.." && !IsDots(path)
  {
    assert path[0] == '/';
    assert forall i :: 0 <= i < |segment| ==> path[i + 1] == segment[i] && segment[i] != '/';
    assert rest != [] ==> path[|segment| + 1] == '/';
    assert |segment| == 1 ==> segment == [segment[0]];
    assert |segment| == 2 ==> segment == [segment[0], segment[1]];
    assert |path| >= 3 ==> !(path[1] == '.' && path[2] == '/');
    assert |path| >= 4 ==> !(path[1] == '.' && path[2] == '.' && path[3] == '/');
    assert |path| == 2 ==> path[1] != '.';
    assert |path| == 3 ==> !(path[1] == '.' && path[2] == '.');
  }

  /** The first segment of a path without dots is copied by step 2E. */
  lemma FirstSegment(path: bytes, output: bytes)
    requires path != [] && path[0] == '/' && NoDots(path)
    ensures var n := SegmentLength(path);
            && RemoveDots(path, output) == RemoveDots(path[n..], output + path[..n])
            && NoDots(path[n..]) && (path[n..] == [] || path[n..][0] == '/')
  {
    hide SplitOn;
    var n := SegmentLength(path);
    FirstSegmentSplits(path);
    NoDotsAfterFirst(path);
    assert path == "/" + path[1..n] + path[n..];
    NotADotStep(path, path[1..n], path[n..]);
  }

  lemma {:induction false} RemoveDotsIsIdentity(path: bytes, output: bytes)
    requires path == [] || path[0] == '/'
    requires NoDots(path)
    ensures RemoveDots(path, output) == output + path
    decreases |path|
  {
    if path == [] {
      assert output + path == output;
    } else {
      hide SplitOn;
      hide RemoveDots;
      FirstSegment(path, output);
      var n := SegmentLength(path);
      RemoveDotsIsIdentity(path[n..], output + path[..n]);
      Assoc(output, path[..n], path[n..]);
      assert path[..n] + path[n..] == path;
    }
  }

  // ----- removing dot segments: exactly when nothing is removed -----

  lemma {:induction false} WithoutLastShrinks(output: bytes)
    ensures |WithoutLast(output)| <= |output|
  {
    if output != [] && output[|output| - 1] != '/' {
      WithoutLastShrinks(output[..|output| - 1]);
    }
  }

  /** A path that reaches step 2E does not begin with a dot segment. */
  lemma CopiedIsNotDots(path: bytes)
    requires path != [] && path[0] == '/'
    requires !("/./" <= path) && path != "/." && !("/../" <= path) && path != "/.."
    ensures !IsDots(path[1..SegmentLength(path)])
  {
    var n := SegmentLength(path);
    var segment, rest := path[1..n], path[n..];
    FirstSegmentSplits(path);
    assert path == "/" + segment + rest;
    assert rest != [] ==> path[n] == '/';
    assert forall i :: 0 <= i < |segment| ==> path[i + 1] == segment[i];
  }

  lemma NoDotsFromRest(path: bytes)
    requires path != [] && path[0] == '/'
    requires !IsDots(path[1..SegmentLength(path)]) && NoDots(path[SegmentLength(path)..])
    ensures NoDots(path)
  {
    hide IsDots;
    var n := SegmentLength(path);
    hide SegmentLength;
    FirstSegmentSplits(path);
    NoDotsEmpty();
    var pieces, own := SplitOn(path, '/'), SplitOn(path[n..], '/');
    forall k | 0 <= k < |pieces| ensures !IsDots(pieces[k]) {
      if k == 0 {
        assert pieces[0] == SplitOn([], '/')[0];
      } else if k >= 2 {
        assert pieces[k] == own[1..][k - 2] == own[k - 1];
      }
    }
  }

  lemma RemoveDotsOfSlash(output: bytes)
    ensures RemoveDots("/", output) == output + "/"
  {
    NoDotsRoot();
    RemoveDotsIsIdentity("/", output);
  }

  /** No step lengthens a path, and every dot segment shortens it. */
  lemma {:induction false} DotsShorten(path: bytes, output: bytes)
    requires path == [] || path[0] == '/'
    ensures |RemoveDots(path, output)| <= |path| + |output|
    ensures !NoDots(path) ==> |RemoveDots(path, output)| < |path| + |output|
    decreases |path|
  {
    hide NoDots;
    hide SegmentLength;
    hide WithoutLast;
    WithoutLastShrinks(output);
    if path == [] {
      NoDotsEmpty();
    } else if "/./" <= path {
      DotsShorten(path[2..], output);
    } else if path == "/." {
      RemoveDotsOfSlash(output);
    } else if "/../" <= path {
      DotsShorten(path[3..], WithoutLast(output));
    } else if path == "/.." {
      RemoveDotsOfSlash(WithoutLast(output));
    } else {
      var n := SegmentLength(path);
      FirstSegmentSplits(path);
      CopiedIsNotDots(path);
      DotsShorten(path[n..], output + path[..n]);
      if NoDots(path[n..]) {
        NoDotsFromRest(path);
      }
    }
  }

  /** Removing dot segments leaves exactly the paths without dot segments as they are. */
  lemma RemovingNothingIsExact(path: bytes)
    requires path != [] && path[0] == '/'
    ensures RemoveDotSegments(path) == path <==> NoDots(path)
  {
    hide NoDots;
    hide RemoveDots;
    DotsShorten(path, []);
    if NoDots(path) {
      RemoveDotsIsIdentity(path, []);
      assert [] + path == path;
    }
  }

  // ----- base path and target path together -----

  lemma {:induction false} SplitConcat(a: bytes, c: byte, b: bytes)
    ensures SplitOn(a + [c] + b, c) == SplitOn(a, c) + SplitOn(b, c)
    decreases |a|
  {
    match FirstOf(a, c)
    case None =>
      SplitFirst(a, c, b);
    case Some(i) =>
      var first, rest := a[..i], a[i + 1..];
      SplitConcat(rest, c, b);
      assert a + [c] + b == first + [c] + (rest + [c] + b);
      SplitFirst(first, c, rest + [c] + b);
      Assoc([first], SplitOn(rest, c), SplitOn(b, c));
  }

  lemma SplitAtSlash(a: bytes, b: bytes)
    requires a != [] && a[|a| - 1] == '/'
    ensures var n := |SplitOn(a, '/')| - 1;
            SplitOn(a, '/')[n] == [] && SplitOn(a + b, '/') == SplitOn(a, '/')[..n] + SplitOn(b, '/')
  {
    var x := a[..|a| - 1];
    var empty: bytes := [];
    assert a == x + ['/'] + empty && a + b == x + ['/'] + b;
    SplitConcat(x, '/', empty);
    SplitConcat(x, '/', b);
    assert SplitOn(empty, '/') == [empty];
  }

  lemma NoDotsConcat(a: bytes, b: bytes)
    requires a != [] && a[|a| - 1] == '/' && NoDots(a) && NoDots(b)
    ensures NoDots(a + b)
  {
    SplitAtSlash(a, b);
    var pieces, n := SplitOn(a + b, '/'), |SplitOn(a, '/')| - 1;
    forall k | 0 <= k < |pieces| ensures !IsDots(pieces[k]) {
      if k < n {
        assert pieces[k] == SplitOn(a, '/')[k];
      } else {
        assert pieces[k] == SplitOn(b, '/')[k - n];
      }
    }
  }

  /** A path whose segments passed every check. */
  ghost predicate GoodPath(path: string) {
    WellEscaped(path) && GoodSegments(SplitOn(path, '/'), false)
  }

  lemma AcceptedPathIsChecked(target: string, allow: bool)
    requires Normalize(target, allow).Ok?
    ensures var path := Normalize(target, allow).value.path;
            WellEscaped(path) && GoodSegments(SplitOn(path, '/'), allow)
  {
    hide FirstOf;
    hide SplitOn;
    NormalizeIsExact(target, allow);
    EscapesOfParts(target);
    var path := PathOf(target);
    assert path[0] == '/';
    EscapesShift(path, 1);
  }

  lemma AcceptedPathIsGood(target: string)
    requires Normalize(target, false).Ok?
    ensures GoodPath(Normalize(target, false).value.path)
  {
    AcceptedPathIsChecked(target, false);
  }

  lemma PlainDotsDecode(s: string)
    requires IsDots(s)
    ensures WellEscaped(s) && Decoded(s) == s
  {
    DecodePlainByte('.');
    DecodeConcat(".", ".");
    assert "." + "." == "..";
  }

  /** In a good path no segment is a dot segment, decoded or not, and decoding commutes with
      splitting at either separator. */
  lemma GoodPathsAreClean(path: string)
    requires GoodPath(path)
    ensures NoDots(path) && NoDots(Decoded(path))
    ensures forall k :: 0 <= k < |SplitOn(path, '/')| ==> WellEscaped(SplitOn(path, '/')[k])
    ensures SplitSeparators(Decoded(path)) == DecodeAll(SplitOn(path, '/'))
    ensures SplitOn(Decoded(path), '/') == DecodeAll(SplitOn(path, '/'))
  {
    hide SplitOn;
    hide Decoded;
    PiecesAreWellEscaped(path, '/');
    var pieces := SplitOn(path, '/');
    forall k | 0 <= k < |pieces|
      ensures !IsDots(pieces[k]) && !IsDots(Decoded(pieces[k])) && !HasSeparator(Decoded(pieces[k]))
    {
      assert GoodSegment(pieces[k], k == |pieces| - 1, false);
      if pieces[k] == [] {
        EmptyDecodes();
      } else if IsDots(pieces[k]) {
        PlainDotsDecode(pieces[k]);
      }
    }
    CleanPiecesCommute(path);
  }

  lemma EmptyDecodes()
    ensures WellEscaped([]) && Decoded([]) == []
  {
    DecodesIffWellEscaped([]);
  }

  /** What a base path must be: free of dot segments, in either spelling. */
  ghost predicate CleanBase(base: string) {
    base != [] && base[0] == '/' && WellEscaped(base) && NoDots(base) && NoDots(Decoded(base))
  }

  /** Under a base that ends in a slash, or alone, an accepted path means the same to an
      origin that removes dot segments and then decodes, to one that decodes and then removes
      them, and to one that does neither; and that meaning begins with the decoded base. */
  lemma OrderOfDecodingIsIrrelevant(base: string, path: string)
    requires CleanBase(base) && GoodPath(path)
    requires path == [] || base[|base| - 1] == '/'
    ensures WellEscaped(base + path)
    ensures RemoveDotSegments(base + path) == base + path
    ensures RemoveDotSegments(Decoded(base + path)) == Decoded(base + path)
    ensures Decoded(RemoveDotSegments(base + path)) == RemoveDotSegments(Decoded(base + path))
    ensures Decoded(base + path) == Decoded(base) + Decoded(path)
  {
    hide Decoded;
    hide RemoveDots;
    hide SplitOn;
    GoodPathsAreClean(path);
    DecodeConcat(base, path);
    DecodedStartsWithSlash(base);
    if path == [] {
      EmptyDecodes();
      assert base + path == base;
      assert Decoded(base) + [] == Decoded(base);
    } else {
      NoDotsConcat(base, path);
      DecodedEndsWithSlash(base);
      NoDotsConcat(Decoded(base), Decoded(path));
    }
    assert [] + (base + path) == base + path;
    assert [] + Decoded(base + path) == Decoded(base + path);
    RemoveDotsIsIdentity(base + path, []);
    RemoveDotsIsIdentity(Decoded(base + path), []);
  }

  lemma CheckedPathHasNoDots(path: string, allow: bool)
    requires GoodSegments(SplitOn(path, '/'), allow)
    ensures NoDots(path)
  {
    hide SplitOn;
    hide Decoded;
    var pieces := SplitOn(path, '/');
    forall k | 0 <= k < |pieces| ensures !IsDots(pieces[k]) {
      assert GoodSegment(pieces[k], k == |pieces| - 1, allow);
      if IsDots(pieces[k]) {
        PlainDotsDecode(pieces[k]);
      }
    }
  }

  lemma NoDotsOfConcat(a: bytes, b: bytes)
    requires a != [] && a[|a| - 1] == '/'
    ensures NoDots(a + b) <==> NoDots(a) && NoDots(b)
  {
    if NoDots(a) && NoDots(b) {
      NoDotsConcat(a, b);
    }
    if NoDots(a + b) {
      SplitAtSlash(a, b);
      var left, right, n := SplitOn(a, '/'), SplitOn(b, '/'), |SplitOn(a, '/')| - 1;
      forall k | 0 <= k < |right| ensures !IsDots(right[k]) {
        assert right[k] == SplitOn(a + b, '/')[k + n];
      }
      forall k | 0 <= k < |left| ensures !IsDots(left[k]) {
        assert k < n ==> left[k] == SplitOn(a + b, '/')[k];
      }
    }
  }

  lemma DecodedStartsWithSlash(s: string)
    requires WellEscaped(s) && s != [] && s[0] == '/'
    ensures Decoded(s) != [] && Decoded(s)[0] == '/'
  {
    DecodesIffWellEscaped(s);
  }

  lemma DecodedEndsWithSlash(s: string)
    requires WellEscaped(s) && s != [] && s[|s| - 1] == '/'
    ensures Decoded(s) != [] && Decoded(s)[|Decoded(s)| - 1] == '/'
  {
    var n := |s| - 1;
    var x := s[..n];
    forall j | 0 <= j < n && x[j] == '%' ensures EscapeAt(x, j) {
      assert EscapeAt(s, j);
    }
    DecodePlainByte('/');
    DecodeConcat(x, "/");
    assert s == x + "/";
  }

  // ----- encoded separators -----

  /** Switching encoded separators on admits exactly the targets with a segment that decodes
      to something holding a separator. */
  lemma SeparatorsAreTheOnlyDifference(target: string)
    requires Normalize(target, true).Ok?
    ensures PathOf(target) != [] && WellEscaped(PathOf(target)[1..])
    ensures Normalize(target, false).Ok?
            <==> SplitSeparators(Decoded(PathOf(target)[1..]))
                 == DecodeAllOf(PathOf(target)[1..])
  {
    hide FirstOf;
    hide SplitOn;
    hide Decoded;
    hide Normalize;
    NormalizeIsExact(target, true);
    NormalizeIsExact(target, false);
    EscapesOfParts(target);
    var path := PathOf(target);
    assert path[0] == '/';
    EscapesShift(path, 1);
    var tail := path[1..];
    SplitAndDecodeCommuteExactly(tail);
    var pieces := SplitOn(tail, '/');
    forall k | 0 <= k < |pieces|
      ensures GoodSegment(pieces[k], k == |pieces| - 1, false) <==> !HasSeparator(Decoded(pieces[k]))
    {
      assert GoodSegment(pieces[k], k == |pieces| - 1, true);
      if pieces[k] == [] {
        EmptyDecodes();
      }
    }
  }

  /** The decoded segments of a well-escaped path. */
  function DecodeAllOf(s: string): seq<bytes>
    requires WellEscaped(s)
  {
    PiecesAreWellEscaped(s, '/');
    DecodeAll(SplitOn(s, '/'))
  }

  lemma {:induction false} PlainTextDecodes(s: string)
    requires '%' !in s
    ensures WellEscaped(s) && Decoded(s) == s
  {
    if s == [] {
      EmptyDecodes();
    } else {
      DecodePlainByte(s[0]);
      PlainTextDecodes(s[1..]);
      DecodeConcat([s[0]], s[1..]);
      assert s == [s[0]] + s[1..];
    }
  }

  lemma EncodedSlashDecodes()
    ensures WellEscaped("%2f") && Decoded("%2f") == "/"
  {
    DecodesIffWellEscaped("%2f");
    assert "%2f"[3..] == "";
    EmptyDecodes();
  }

  /** With encoded separators on, the target `/..%2f` is accepted, and an origin that decodes
      before it removes dot segments leaves the base `/a/`. */
  lemma EncodedSeparatorsCanEscape()
    ensures Normalize("/..%2f", true) == Ok(NormalizedTarget("..%2f", None))
    ensures WellEscaped("/a/..%2f") && RemoveDotSegments(Decoded("/a/..%2f")) == "/"
  {
    LeavesTheBase();
    EncodedSlashIsAccepted();
  }

  lemma EncodedSlashIsAccepted()
    ensures Normalize("/..%2f", true) == Ok(NormalizedTarget("..%2f", None))
  {
    hide Normalize;
    hide Decoded;
    DotDotSlash();
    assert "/" + "..%2f" == "/..%2f";
    assert !IsDots(Decoded("..%2f")) by {
      assert Decoded("..%2f")[2] == '/';
    }
    OneSegmentIsAccepted("..%2f");
  }

  lemma SlashIsAccepted(allow: bool)
    ensures Normalize("/", allow) == Ok(NormalizedTarget("", None))
  {
    hide Decoded;
    NoQuestionMark("/");
    OnePiece([]);
    EmptyDecodes();
    assert "/"[1..] == [] && "/"[0] == '/';
    hide SplitOn;
    hide PathOf;
    assert GoodSegment([], true, allow);
    assert Acceptable("/", allow);
    NormalizeIsExact("/", allow);
  }

  lemma BackslashIsAccepted()
    ensures Normalize("/..\\x", true) == Ok(NormalizedTarget("..\\x", None))
  {
    hide Normalize;
    hide Decoded;
    PlainTextDecodes("..\\x");
    assert "/" + "..\\x" == "/..\\x";
    assert !IsDots("..\\x") by {
      assert "..\\x"[2] == '\\';
    }
    OneSegmentIsAccepted("..\\x");
  }

  /** With encoded separators on, any single segment that does not decode to dots is accepted. */
  lemma OneSegmentIsAccepted(segment: string)
    requires segment != [] && |segment| < MAX_TARGET_LEN && All(segment, IsPrintable)
    requires forall i :: 0 <= i < |segment| ==> segment[i] !in "/?#"
    requires WellEscaped(segment) && !IsDots(Decoded(segment))
    ensures Normalize("/" + segment, true) == Ok(NormalizedTarget(segment, None))
  {
    var target := "/" + segment;
    OneSegmentIsAcceptable(segment);
    NormalizeIsExact(target, true);
    hide Utf8Len;
    hide Acceptable;
    hide CheckPath;
    NoQuestionMark(target);
    assert target[1..] == segment;
  }

  lemma NoQuestionMark(target: string)
    requires '?' !in target
    ensures PathOf(target) == target && QueryOf(target) == None
  {
  }

  lemma OneSegmentIsAcceptable(segment: string)
    requires segment != [] && |segment| < MAX_TARGET_LEN && All(segment, IsPrintable)
    requires forall i :: 0 <= i < |segment| ==> segment[i] !in "/?#"
    requires WellEscaped(segment) && !IsDots(Decoded(segment))
    ensures Acceptable("/" + segment, true)
  {
    hide Decoded;
    var target := "/" + segment;
    assert target[1..] == segment;
    assert forall i :: 0 < i < |target| ==> target[i] == segment[i - 1];
    NoQuestionMark(target);
    OnePiece(segment);
    hide SplitOn;
    hide PathOf;
    EscapesShift(target, 1);
    assert GoodSegment(segment, true, true);
  }

  lemma OnePiece(s: string)
    requires '/' !in s
    ensures SplitOn(s, '/') == [s]
  {
  }

  lemma DotDotSlash()
    ensures WellEscaped("..%2f") && Decoded("..%2f") == "../"
  {
    PlainTextDecodes("..");
    EncodedSlashDecodes();
    DecodeConcat("..", "%2f");
    assert ".." + "%2f" == "..%2f" && ".." + "/" == "../";
  }

  lemma LeavesTheBase()
    ensures WellEscaped("/a/..%2f") && RemoveDotSegments(Decoded("/a/..%2f")) == "/"
  {
    DotDotSlash();
    PlainTextDecodes("/a/");
    DecodeConcat("/a/", "..%2f");
    assert "/a/" + "..%2f" == "/a/..%2f" && "/a/" + "../" == "/a/../";
    hide Decoded;
    DotsLeaveOneLevel();
  }

  /** Step 2E on a segment that is not a dot segment. */
  lemma CopyStep(segment: bytes, rest: bytes, output: bytes)
    requires !IsDots(segment) && '/' !in segment && rest != [] && rest[0] == '/'
    ensures RemoveDots("/" + segment + rest, output) == RemoveDots(rest, output + ("/" + segment))
  {
    var path := "/" + segment + rest;
    NotADotStep(path, segment, rest);
    hide IsDots;
    var tail := path[1..];
    assert tail == segment + ['/'] + rest[1..];
    FirstOfConcat(segment, '/', rest[1..]);
    var n := |segment| + 1;
    assert SegmentLength(path) == n;
    assert path[n..] == rest && path[..n] == "/" + segment;
  }

  /** Step 2C. */
  lemma UpStep(rest: bytes, output: bytes)
    ensures RemoveDots("/../" + rest, output) == RemoveDots("/" + rest, WithoutLast(output))
  {
    var path := "/../" + rest;
    assert path[0] == '/' && path[1] == '.' && path[2] == '.';
    assert path[3..] == "/" + rest;
  }

  lemma DotsLeaveOneLevel()
    ensures RemoveDotSegments("/a/../") == "/"
  {
    hide RemoveDots;
    CopyStep("a", "/../", []);
    assert "/" + "a" + "/../" == "/a/../" && [] + ("/" + "a") == "/a";
    UpStep([], "/a");
    assert "/../" + [] == "/../" && "/" + [] == "/";
    assert WithoutLast("/a") == [] by {
      assert "/a"[..1] == "/" && "/"[..0] == [];
    }
    NoDotsRoot();
    RemoveDotsIsIdentity("/", []);
    assert [] + "/" == "/";
  }

  lemma NoDotsRoot()
    ensures NoDots("/")
  {
    SplitFirst([], '/', []);
    assert [] + ['/'] + [] == "/";
  }
}
