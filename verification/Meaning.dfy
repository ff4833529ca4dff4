/** When a path means the same to every origin, whether it decodes first or removes dot segments
    first, and whether or not it takes a decoded `\` for `/`. */
module Meaning {
  import opened Octets
  import opened Target
  import opened Containment
  import Urls

  // ----- origins that take a backslash for a slash -----

  function Slashed(s: bytes): (r: bytes)
    ensures |r| == |s|
    ensures forall i :: 0 <= i < |s| ==> r[i] == if s[i] == '\\' then '/' else s[i]
  {
    seq(|s|, i requires 0 <= i < |s| => if s[i] == '\\' then '/' else s[i])
  }

  lemma SlashedConcat(a: bytes, b: bytes)
    ensures Slashed(a + b) == Slashed(a) + Slashed(b)
  {
  }

  lemma SlashedIsItself(s: bytes)
    requires '\\' !in s
    ensures Slashed(s) == s
  {
  }

  lemma SlashedAround(a: bytes, c: byte, b: bytes)
    requires IsSeparator(c)
    ensures Slashed(a + [c] + b) == Slashed(a) + ['/'] + Slashed(b)
  {
  }

  /** The segments such an origin sees are those between separators of either kind. */
  lemma {:induction false} SlashedSplits(s: bytes)
    ensures SplitOn(Slashed(s), '/') == SplitSeparators(s)
    decreases |s|
  {
    hide Slashed;
    match FirstSeparator(s)
    case None =>
      SlashedIsItself(s);
      OnePiece(s);
    case Some(i) =>
      var a, rest := s[..i], s[i + 1..];
      assert s == a + [s[i]] + rest;
      SlashedIsItself(a);
      SlashedAround(a, s[i], rest);
      SplitFirst(a, '/', Slashed(rest));
      SlashedSplits(rest);
  }

  /** A segment between slashes that is a dot segment is one between separators of either kind. */
  lemma {:induction false} NoDotsOfSlashed(s: bytes)
    requires NoDots(Slashed(s))
    ensures NoDots(s)
    decreases |s|
  {
    hide Slashed;
    hide NoDots;
    match FirstOf(s, '/')
    case None =>
      NoDotsOfPiece(s);
    case Some(i) =>
      var x, y := s[..i], s[i + 1..];
      assert s == x + ['/'] + y;
      SlashedAround(x, '/', y);
      NoDotsAround(Slashed(x), Slashed(y));
      NoDotsOfPiece(x);
      NoDotsOfSlashed(y);
      NoDotsAround(x, y);
  }

  lemma NoDotsOfPiece(s: bytes)
    requires '/' !in s && NoDots(Slashed(s))
    ensures NoDots(s)
  {
    OnePiece(s);
    if IsDots(s) {
      SlashedIsItself(s);
    }
  }

  lemma NoDotsAround(a: bytes, b: bytes)
    ensures NoDots(a + ['/'] + b) <==> NoDots(a) && NoDots(b)
  {
    SplitConcat(a, '/', b);
    hide SplitOn;
    var pieces, left, right := SplitOn(a + ['/'] + b, '/'), SplitOn(a, '/'), SplitOn(b, '/');
    assert forall k :: 0 <= k < |left| ==> left[k] == pieces[k];
    assert forall k :: 0 <= k < |right| ==> right[k] == pieces[k + |left|];
  }

  // ----- one meaning -----

  /** Removing dot segments and decoding give the same in either order, to an origin that takes
      only `/` and to one that takes `\` too. */
  ghost predicate KeepsOneMeaning(path: string) {
    WellEscaped(path) && WellEscaped(RemoveDotSegments(path))
    && Decoded(RemoveDotSegments(path)) == RemoveDotSegments(Decoded(path))
    && Slashed(Decoded(RemoveDotSegments(path))) == RemoveDotSegments(Slashed(Decoded(path)))
  }

  /** No decoded segment, between separators of either kind, is a dot segment. */
  ghost predicate HidesNoDots(path: string) {
    WellEscaped(path)
    && forall k :: 0 <= k < |SplitSeparators(Decoded(path))| ==> !IsDots(SplitSeparators(Decoded(path))[k])
  }

  lemma HidesNoDotsWhenSlashed(path: string)
    requires WellEscaped(path)
    ensures HidesNoDots(path) <==> NoDots(Slashed(Decoded(path)))
  {
    hide Decoded;
    hide SplitSeparators;
    hide SplitOn;
    SlashedSplits(Decoded(path));
  }

  /** A path without dot segments of its own keeps one meaning exactly when it hides none. */
  lemma MeaningIsExact(path: string)
    requires path != [] && path[0] == '/' && NoDots(path)
    ensures RemoveDotSegments(path) == path
    ensures KeepsOneMeaning(path) <==> HidesNoDots(path)
  {
    hide Decoded;
    hide NoDots;
    hide RemoveDotSegments;
    RemovingNothingIsExact(path);
    if WellEscaped(path) {
      DecodedStartsWithSlash(path);
      var d := Decoded(path);
      RemovingNothingIsExact(d);
      RemovingNothingIsExact(Slashed(d));
      HidesNoDotsWhenSlashed(path);
      if NoDots(Slashed(d)) {
        NoDotsOfSlashed(d);
      }
    }
  }

  /** Under either setting of encoded separators: base and checked path together keep one meaning
      exactly when neither hides a dot segment. */
  lemma OrderOfDecodingMattersExactly(base: string, path: string, allow: bool)
    requires base != [] && base[0] == '/' && WellEscaped(base) && NoDots(base)
    requires WellEscaped(path) && GoodSegments(SplitOn(path, '/'), allow)
    requires path == [] || base[|base| - 1] == '/'
    ensures RemoveDotSegments(base + path) == base + path
    ensures KeepsOneMeaning(base + path) <==> HidesNoDots(base) && HidesNoDots(path)
  {
    hide Decoded;
    hide NoDots;
    hide SplitOn;
    hide KeepsOneMeaning;
    CheckedPathHasNoDots(path, allow);
    if path == [] {
      assert base + path == base;
      EmptyHidesNothing();
    } else {
      NoDotsOfConcat(base, path);
      HidesNoDotsConcat(base, path);
    }
    MeaningIsExact(base + path);
  }

  lemma EmptyHidesNothing()
    ensures HidesNoDots([])
  {
    EmptyDecodes();
    NoDotsEmpty();
    SlashedIsItself([]);
    HidesNoDotsWhenSlashed([]);
  }

  lemma EscapesAround(a: string, b: string)
    requires a != [] && a[|a| - 1] == '/'
    ensures WellEscaped(a + b) <==> WellEscaped(a) && WellEscaped(b)
  {
    var s, n := a + b, |a|;
    assert forall j :: 0 <= j < n ==> s[j] == a[j];
    assert forall j :: 0 <= j < |b| ==> s[j + n] == b[j] && (EscapeAt(s, j + n) <==> EscapeAt(b, j));
    forall j | 0 <= j < n && a[j] == '%' ensures EscapeAt(s, j) <==> EscapeAt(a, j) {
      assert s[n - 1] == '/' && !IsHex('/');
    }
    if WellEscaped(s) {
      assert forall j :: 0 <= j < |b| && b[j] == '%' ==> EscapeAt(s, j + n);
    }
    if WellEscaped(a) && WellEscaped(b) {
      forall j | 0 <= j < |s| && s[j] == '%' ensures EscapeAt(s, j) {
        assert j >= n ==> b[j - n] == s[j] && EscapeAt(b, j - n);
      }
    }
  }

  lemma HidesNoDotsConcat(a: string, b: string)
    requires a != [] && a[|a| - 1] == '/'
    ensures HidesNoDots(a + b) <==> HidesNoDots(a) && HidesNoDots(b)
  {
    EscapesAround(a, b);
    if WellEscaped(a + b) {
      hide Decoded;
      hide NoDots;
      hide HidesNoDots;
      DecodeConcat(a, b);
      DecodedEndsWithSlash(a);
      SlashedConcat(Decoded(a), Decoded(b));
      NoDotsOfConcat(Slashed(Decoded(a)), Slashed(Decoded(b)));
      HidesNoDotsWhenSlashed(a);
      HidesNoDotsWhenSlashed(b);
      HidesNoDotsWhenSlashed(a + b);
    }
  }

  // ----- normalized paths -----

  lemma SlashedIsWellEscaped(s: string)
    requires WellEscaped(s)
    ensures WellEscaped(Slashed(s))
  {
    var t := Slashed(s);
    forall i | 0 <= i < |t| && t[i] == '%' ensures EscapeAt(t, i) {
      assert s[i] == '%' && EscapeAt(s, i);
    }
  }

  ghost predicate AllWellEscaped(pieces: seq<string>) {
    forall k :: 0 <= k < |pieces| ==> WellEscaped(pieces[k])
  }

  lemma {:induction false} WalkKeepsEscapes(pieces: seq<string>, stack: seq<string>)
    requires AllWellEscaped(pieces) && AllWellEscaped(stack)
    ensures AllWellEscaped(Urls.Walk(pieces, stack))
    decreases |pieces|
  {
    hide WellEscaped;
    if pieces != [] {
      EmptyDecodes();
      var end: seq<string> := if |pieces| == 1 then [""] else [];
      WalkKeepsEscapes(pieces[1..], (if stack == [] then [] else stack[..|stack| - 1]) + end);
      WalkKeepsEscapes(pieces[1..], stack + end);
      WalkKeepsEscapes(pieces[1..], stack + [pieces[0]]);
    }
  }

  lemma {:induction false} JoinKeepsEscapes(pieces: seq<string>)
    requires pieces != [] && AllWellEscaped(pieces)
    ensures WellEscaped(JoinWith(pieces, '/'))
  {
    if |pieces| > 1 {
      JoinKeepsEscapes(pieces[1..]);
      EmptyDecodes();
      var rest := JoinWith(pieces[1..], '/');
      SlashKeepsEscapes(pieces[0], rest);
    }
  }

  lemma SlashKeepsEscapes(a: string, b: string)
    requires WellEscaped(a) && WellEscaped(b)
    ensures WellEscaped(a + ['/'] + b)
  {
    EmptyDecodes();
    DecodePlainByte('/');
    DecodeConcat(a, "/");
    DecodeConcat(a + "/", b);
  }

  /** Normalizing a path breaks no escape. */
  lemma NormalizedIsWellEscaped(raw: string)
    requires raw != [] && raw[0] == '/' && WellEscaped(raw)
    ensures WellEscaped(Urls.NormalizePath(raw))
  {
    hide Decoded;
    hide Urls.Walk;
    hide SplitSeparators;
    var tail := raw[1..];
    EscapesShift(raw, 1);
    SlashedIsWellEscaped(tail);
    PiecesAreWellEscaped(Slashed(tail), '/');
    SlashedSplits(tail);
    WalkKeepsEscapes(SplitSeparators(tail), []);
    var stack := Urls.Walk(SplitSeparators(tail), []);
    EmptyDecodes();
    if stack == [] {
      SlashKeepsEscapes([], []);
      assert [] + ['/'] + [] == "/";
    } else {
      JoinKeepsEscapes(stack);
      SlashKeepsEscapes([], JoinWith(stack, '/'));
      assert [] + ['/'] + JoinWith(stack, '/') == "/" + JoinWith(stack, '/');
    }
  }

  // ----- a backslash that hides a dot segment -----

  lemma EncodedBackslashIsAccepted()
    ensures Normalize("/..%5cx", true) == Ok(NormalizedTarget("..%5cx", None))
    ensures WellEscaped("..%5cx") && Decoded("..%5cx") == "..\\x" && !HidesNoDots("..%5cx")
  {
    hide Normalize;
    EncodedBackslashDecodes();
    hide Decoded;
    assert "/" + "..%5cx" == "/..%5cx";
    var d: bytes := "..\\x";
    assert !IsDots(d) by {
      assert d[2] == '\\';
    }
    OneSegmentIsAccepted("..%5cx");
    assert ".." + ['\\'] + "x" == d;
    SplitSeparatorsFirst("..", '\\', "x");
    assert IsDots(SplitSeparators(d)[0]);
  }

  lemma EncodedBackslashDecodes()
    ensures WellEscaped("..%5cx") && Decoded("..%5cx") == "..\\x"
  {
    PlainTextDecodes("..");
    PlainTextDecodes("x");
    EscapedBackslash();
    DecodeConcat("..", "%5c");
    DecodeConcat("..%5c", "x");
    assert ".." + "%5c" == "..%5c" && "..%5c" + "x" == "..%5cx";
    assert ".." + "\\" == "..\\" && "..\\" + "x" == "..\\x";
  }

  lemma EscapedBackslash()
    ensures WellEscaped("%5c") && Decoded("%5c") == "\\"
  {
    DecodesIffWellEscaped("%5c");
    assert "%5c"[3..] == "";
    EmptyDecodes();
  }
}
