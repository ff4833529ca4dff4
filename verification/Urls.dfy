/** A small URL parser: it splits a URL, takes `\` for `/` in the path, and removes dot
    segments in every spelling, as parsers of special schemes do. */
module Urls {
  import opened Octets
  import opened Target
  import opened Containment

  datatype Url = Url(scheme: string, authority: string, path: string,
                     query: Option<string>, fragment: Option<string>)

  /** The length of the longest prefix free of every stop. */
  function Until(s: string, stops: string): (n: nat)
    ensures n <= |s| && (n < |s| ==> s[n] in stops)
    ensures forall i :: 0 <= i < n ==> s[i] !in stops
  {
    if s == [] || s[0] in stops then 0 else Until(s[1..], stops) + 1
  }

  lemma UntilStops(a: string, stops: string, b: string)
    requires forall i :: 0 <= i < |a| ==> a[i] !in stops
    requires b == [] || b[0] in stops
    ensures Until(a + b, stops) == |a|
  {
    var s := a + b;
    assert forall i :: 0 <= i < |a| ==> s[i] == a[i];
    assert b != [] ==> s[|a|] == b[0];
  }

  // ----- dot segments -----

  predicate IsSingleDot(piece: string) {
    piece == "." || Lower(piece) == "%2e"
  }

  predicate IsDoubleDot(piece: string) {
    piece == ".." || Lower(piece) == ".%2e" || Lower(piece) == "%2e." || Lower(piece) == "%2e%2e"
  }

  predicate IsDotLike(piece: string) {
    IsSingleDot(piece) || IsDoubleDot(piece)
  }

  function Walk(pieces: seq<string>, stack: seq<string>): seq<string>
    decreases |pieces|
  {
    if pieces == [] then stack
    else
      var end := if |pieces| == 1 then [""] else [];
      if IsDoubleDot(pieces[0]) then
        Walk(pieces[1..], (if stack == [] then [] else stack[..|stack| - 1]) + end)
      else if IsSingleDot(pieces[0]) then Walk(pieces[1..], stack + end)
      else Walk(pieces[1..], stack + [pieces[0]])
  }

  function NormalizePath(raw: string): (path: string)
    ensures path != [] && path[0] == '/'
  {
    if raw == [] then "/"
    else
      var stack := Walk(SplitSeparators(raw[1..]), []);
      if stack == [] then "/" else "/" + JoinWith(stack, '/')
  }

  // ----- the parser -----

  function Parse(text: string): Option<Url> {
    match FirstOf(text, ':')
    case None => None
    case Some(i) =>
      var rest := text[i + 1..];
      if "//" <= rest then ParseHierarchy(text[..i], rest[2..]) else None
  }

  function ParseHierarchy(scheme: string, hier: string): Option<Url> {
    var n := Until(hier, "/\\?#");
    if n == 0 then None
    else
      var tail := hier[n..];
      var p := Until(tail, "?#");
      var (query, fragment) := QueryAndFragment(tail[p..]);
      Some(Url(scheme, hier[..n], NormalizePath(tail[..p]), query, fragment))
  }

  function QueryAndFragment(s: string): (Option<string>, Option<string>) {
    if s == [] then (None, None)
    else if s[0] == '#' then (None, Some(s[1..]))
    else
      var q := Until(s[1..], "#");
      (Some(s[1..][..q]), if q < |s[1..]| then Some(s[1..][q + 1..]) else None)
  }

  // ----- normalized paths are fixed points -----

  ghost predicate NoDotLike(pieces: seq<string>) {
    forall k :: 0 <= k < |pieces| ==> !IsDotLike(pieces[k])
  }

  ghost predicate IsNormalPath(path: string) {
    path != [] && path[0] == '/' && '\\' !in path && NoDotLike(SplitOn(path, '/'))
  }

  lemma {:induction false} WalkKeepsPlain(pieces: seq<string>, stack: seq<string>)
    requires NoDotLike(pieces)
    ensures Walk(pieces, stack) == stack + pieces
    decreases |pieces|
  {
    if pieces == [] {
      assert stack + pieces == stack;
    } else {
      assert forall k :: 0 <= k < |pieces[1..]| ==> pieces[1..][k] == pieces[k + 1];
      assert !IsDotLike(pieces[0]);
      WalkKeepsPlain(pieces[1..], stack + [pieces[0]]);
      assert stack + [pieces[0]] + pieces[1..] == stack + pieces;
    }
  }

  lemma NormalPathIsFixed(path: string)
    requires IsNormalPath(path)
    ensures NormalizePath(path) == path
  {
    hide IsDotLike;
    var tail := path[1..];
    var empty: bytes := [];
    assert path == empty + ['/'] + tail;
    SplitFirst(empty, '/', tail);
    assert forall k :: 0 <= k < |SplitOn(tail, '/')| ==> SplitOn(tail, '/')[k] == SplitOn(path, '/')[k + 1];
    assert '\\' !in tail;
    SplitsAgree(tail);
    var pieces := SplitOn(tail, '/');
    WalkKeepsPlain(pieces, []);
    assert [] + pieces == pieces;
    hide Walk;
    JoinSplit(tail, '/');
    assert "/" + tail == path;
  }

  /** Pieces on the stack are plain: no dot segment, no separator, no forbidden byte. */
  ghost predicate PlainPieces(stack: seq<string>) {
    forall k :: 0 <= k < |stack| ==>
      !IsDotLike(stack[k]) && !HasSeparator(stack[k]) && '?' !in stack[k] && '#' !in stack[k]
  }

  lemma EmptyIsPlain()
    ensures !IsDotLike("")
  {
    assert |Lower("")| == 0;
  }

  lemma {:induction false} WalkMakesPlain(pieces: seq<string>, stack: seq<string>)
    requires forall k :: 0 <= k < |pieces| ==> !HasSeparator(pieces[k]) && '?' !in pieces[k] && '#' !in pieces[k]
    requires PlainPieces(stack)
    ensures PlainPieces(Walk(pieces, stack))
    ensures pieces != [] ==> Walk(pieces, stack) != []
    decreases |pieces|
  {
    if pieces != [] {
      EmptyIsPlain();
      var end: seq<string> := if |pieces| == 1 then [""] else [];
      var next := if IsDoubleDot(pieces[0]) then (if stack == [] then [] else stack[..|stack| - 1]) + end
                  else if IsSingleDot(pieces[0]) then stack + end
                  else stack + [pieces[0]];
      assert PlainPieces(next);
      hide IsDotLike;
      assert Walk(pieces, stack) == Walk(pieces[1..], next);
      assert forall k :: 0 <= k < |pieces[1..]| ==> pieces[1..][k] == pieces[k + 1];
      WalkMakesPlain(pieces[1..], next);
      if |pieces| == 1 {
        assert pieces[1..] == [];
      }
    }
  }

  /** The pieces of a text hold only its bytes. */
  lemma {:induction false} PiecesHoldOnlyBytes(s: bytes, c: byte)
    requires c !in s
    ensures forall k :: 0 <= k < |SplitSeparators(s)| ==> c !in SplitSeparators(s)[k]
    decreases |s|
  {
    match FirstSeparator(s)
    case None =>
    case Some(i) =>
      PiecesHoldOnlyBytes(s[i + 1..], c);
      assert SplitSeparators(s) == [s[..i]] + SplitSeparators(s[i + 1..]);
  }

  lemma {:induction false} JoinHoldsOnlyBytes(parts: seq<bytes>, c: byte)
    requires |parts| > 0 && c != '/' && forall k :: 0 <= k < |parts| ==> c !in parts[k]
    ensures c !in JoinWith(parts, '/')
  {
    if |parts| > 1 {
      assert forall k :: 0 <= k < |parts[1..]| ==> parts[1..][k] == parts[k + 1];
      JoinHoldsOnlyBytes(parts[1..], c);
    }
  }

  /** Whatever is parsed, the path that comes out is normal. */
  lemma NormalizedPathIsNormal(raw: string)
    requires '?' !in raw && '#' !in raw
    ensures IsNormalPath(NormalizePath(raw)) && '?' !in NormalizePath(raw) && '#' !in NormalizePath(raw)
  {
    var empty: bytes := [];
    EmptyIsPlain();
    hide IsDotLike;
    if raw == [] {
      SplitFirst(empty, '/', empty);
      assert empty + ['/'] + empty == "/";
      NoDotsEmpty();
    } else {
      var pieces := SplitSeparators(raw[1..]);
      PiecesHoldOnlyBytes(raw[1..], '?');
      PiecesHoldOnlyBytes(raw[1..], '#');
      WalkMakesPlain(pieces, []);
      var stack := Walk(pieces, []);
      JoinOfPlainIsNormal(stack);
    }
  }

  lemma JoinOfPlainIsNormal(stack: seq<string>)
    requires stack != [] && PlainPieces(stack)
    ensures var path := "/" + JoinWith(stack, '/');
            IsNormalPath(path) && '?' !in path && '#' !in path
  {
    EmptyIsPlain();
    hide IsDotLike;
    var empty: bytes := [];
    var joined := JoinWith(stack, '/');
    JoinHoldsOnlyBytes(stack, '\\');
    JoinHoldsOnlyBytes(stack, '?');
    JoinHoldsOnlyBytes(stack, '#');
    SplitJoin(stack, '/');
    SplitFirst(empty, '/', joined);
    assert empty + ['/'] + joined == "/" + joined;
  }

  function QueryText(query: Option<string>): string {
    if query.Some? then "?" + query.value else ""
  }

  function UrlText(scheme: string, authority: string, path: string, query: Option<string>): string {
    scheme + "://" + (authority + (path + QueryText(query)))
  }

  lemma HierarchyParses(scheme: string, authority: string, path: string, query: Option<string>)
    requires authority != [] && forall i :: 0 <= i < |authority| ==> authority[i] !in "/\\?#"
    requires path != [] && path[0] == '/' && '?' !in path && '#' !in path
    requires query.Some? ==> '#' !in query.value
    ensures ParseHierarchy(scheme, authority + (path + QueryText(query)))
            == Some(Url(scheme, authority, NormalizePath(path), query, None))
  {
    hide NormalizePath;
    hide Until;
    var tail := path + QueryText(query);
    UntilStops(authority, "/\\?#", tail);
    UntilStops(path, "?#", QueryText(query));
    QueryParses(query);
    hide QueryText;
    hide QueryAndFragment;
    var hier := authority + tail;
    assert hier[..|authority|] == authority && hier[|authority|..] == tail;
    assert tail[..|path|] == path && tail[|path|..] == QueryText(query);
  }

  lemma QueryParses(query: Option<string>)
    requires query.Some? ==> '#' !in query.value
    ensures QueryAndFragment(QueryText(query)) == (query, None)
  {
    if query.Some? {
      var q := query.value;
      UntilStops(q, "#", "");
      assert q + "" == q && QueryText(query)[1..] == q;
    }
  }

  lemma SchemeParses(scheme: string, hier: string)
    requires ':' !in scheme
    ensures Parse(scheme + "://" + hier) == ParseHierarchy(scheme, hier)
  {
    hide ParseHierarchy;
    hide FirstOf;
    var text, rest := scheme + "://" + hier, "//" + hier;
    FirstOfConcat(scheme, ':', rest);
    assert text == scheme + [':'] + rest;
    assert text[..|scheme|] == scheme;
    assert text[|scheme| + 1..] == rest;
    assert rest[2..] == hier;
  }

  /** The text of a URL parses back to its parts, but for the path, which is normalized. */
  lemma UrlTextParses(scheme: string, authority: string, path: string, query: Option<string>)
    requires ':' !in scheme
    requires authority != [] && forall i :: 0 <= i < |authority| ==> authority[i] !in "/\\?#"
    requires path != [] && path[0] == '/' && '?' !in path && '#' !in path
    requires query.Some? ==> '#' !in query.value
    ensures Parse(UrlText(scheme, authority, path, query))
            == Some(Url(scheme, authority, NormalizePath(path), query, None))
  {
    hide ParseHierarchy;
    hide Parse;
    HierarchyParses(scheme, authority, path, query);
    SchemeParses(scheme, authority + (path + QueryText(query)));
  }

  // ----- good segments are not dot segments in any spelling -----

  lemma LowerAt(p: string, q: string, i: nat)
    requires Lower(p) == q && i < |q|
    ensures LowerByte(p[i]) == q[i]
  {
    assert Lower(p)[i] == LowerByte(p[i]);
  }

  /** `%2e` and `%2E` decode to a dot. */
  lemma EscapedDotDecodes(p: string)
    requires Lower(p) == "%2e"
    ensures WellEscaped(p) && Decoded(p) == "."
  {
    LowerAt(p, "%2e", 0);
    LowerAt(p, "%2e", 1);
    LowerAt(p, "%2e", 2);
    assert p[3..] == "";
    DecodesIffWellEscaped(p);
    EmptyDecodes();
  }

  lemma DotLikeDecodes(p: string)
    requires IsDotLike(p)
    ensures WellEscaped(p) && IsDots(Decoded(p))
  {
    DecodePlainByte('.');
    if IsDots(p) {
      PlainDotsDecode(p);
    } else if Lower(p) == "%2e" {
      EscapedDotDecodes(p);
    } else {
      var k := if Lower(p) == ".%2e" then 1 else 3;
      var a, b := p[..k], p[k..];
      var l := Lower(p);
      assert p == a + b;
      assert Lower(a) == l[..k] && Lower(b) == l[k..];
      assert ".%2e"[..1] == "." && ".%2e"[1..] == "%2e";
      assert "%2e."[..3] == "%2e" && "%2e."[3..] == ".";
      assert "%2e%2e"[..3] == "%2e" && "%2e%2e"[3..] == "%2e";
      HalfDotDecodes(a);
      HalfDotDecodes(b);
      DecodeConcat(a, b);
    }
  }

  lemma HalfDotDecodes(a: string)
    requires Lower(a) == "." || Lower(a) == "%2e"
    ensures WellEscaped(a) && Decoded(a) == "."
  {
    if Lower(a) == "%2e" {
      EscapedDotDecodes(a);
    } else {
      LowerAt(a, ".", 0);
      assert a == ['.'];
      DecodePlainByte('.');
    }
  }

  /** A byte that is neither `%` nor a hexadecimal digit survives decoding. */
  lemma {:induction false} PlainByteSurvives(s: string, c: char)
    requires WellEscaped(s) && c in s && c != '%' && !IsHex(c)
    ensures c in Decoded(s)
  {
    DecodesIffWellEscaped(s);
    var k := if s[0] == '%' then 3 else 1;
    assert s[0] == '%' ==> EscapeAt(s, 0);
    if c in s[k..] {
      EscapesShift(s, k);
      DecodesIffWellEscaped(s[k..]);
      PlainByteSurvives(s[k..], c);
    } else {
      assert s == s[..k] + s[k..];
      assert c in s[..k];
    }
  }

  /** Checked segments are not dot segments in any spelling. */
  lemma CheckedSegmentsAreNormal(path: string, allow: bool)
    requires GoodSegments(SplitOn(path, '/'), allow)
    ensures NoDotLike(SplitOn(path, '/'))
  {
    hide SplitOn;
    hide Decoded;
    hide IsDotLike;
    EmptyIsPlain();
    var pieces := SplitOn(path, '/');
    forall k | 0 <= k < |pieces| ensures !IsDotLike(pieces[k]) {
      assert GoodSegment(pieces[k], k == |pieces| - 1, allow);
      if pieces[k] != [] && IsDotLike(pieces[k]) {
        DotLikeDecodes(pieces[k]);
      }
    }
  }

  /** With encoded separators off a checked path holds no backslash. */
  lemma GoodPathHasNoBackslash(path: string)
    requires GoodPath(path)
    ensures '\\' !in path
  {
    hide SplitOn;
    hide Decoded;
    hide IsDotLike;
    GoodPathsAreClean(path);
    JoinSplit(path, '/');
    var pieces := SplitOn(path, '/');
    forall k | 0 <= k < |pieces| ensures '\\' !in pieces[k] {
      assert GoodSegment(pieces[k], k == |pieces| - 1, false);
      if '\\' in pieces[k] {
        PlainByteSurvives(pieces[k], '\\');
      }
    }
    JoinHoldsOnlyBytes(pieces, '\\');
  }

  /** A backslash is a slash to this parser, and so can make a dot segment. */
  lemma BackslashMakesDots()
    ensures NormalizePath("/a/..\\x") == "/x"
  {
    BackslashSplits();
    hide SplitSeparators;
    hide Walk;
    assert "/a/..\\x"[1..] == "a/..\\x";
    ThreePieces();
  }

  lemma BackslashSplits()
    ensures SplitSeparators("a/..\\x") == ["a"] + ([".."] + ["x"])
  {
    hide SplitSeparators;
    assert "a" + ['/'] + "..\\x" == "a/..\\x";
    SplitSeparatorsFirst("a", '/', "..\\x");
    UpAndName();
  }

  lemma UpAndName()
    ensures SplitSeparators("..\\x") == [".."] + ["x"]
  {
    OnlyPiece("x");
    hide SplitSeparators;
    assert ".." + ['\\'] + "x" == "..\\x";
    SplitSeparatorsFirst("..", '\\', "x");
  }

  lemma OnlyPiece(s: bytes)
    requires !HasSeparator(s)
    ensures SplitSeparators(s) == [s]
  {
  }

  lemma ThreePieces()
    ensures var stack := Walk(["a"] + ([".."] + ["x"]), []); stack == ["x"] && JoinWith(stack, '/') == "x"
  {
    var pieces := ["a"] + ([".."] + ["x"]);
    assert Lower("a") == "a" && Lower("x") == "x";
    assert pieces[1..] == [".."] + ["x"] && pieces[1..][1..] == ["x"] && ["x"][1..] == [];
    assert Walk(pieces, []) == Walk(pieces[1..], ["a"]);
    assert Walk(pieces[1..], ["a"]) == Walk(["x"], []);
    assert Walk(["x"], []) == Walk([], ["x"]);
  }
}
