/** The URL parser's path is the one of section 5.2.4 of RFC 3986, once dot segments in every
    spelling and separators of either kind are written plainly. */
module PathRules {
  import opened Octets
  import opened Target
  import opened Containment
  import opened Climbing
  import Urls

  // ----- dot segments in every spelling -----

  /** The one or two characters of a dot segment, whether or not they are escaped. */
  ghost predicate Denotes(piece: string, dots: string) {
    WellEscaped(piece) && Decoded(piece) == dots
  }

  lemma {:induction false} DecodedOnce(piece: string)
    requires WellEscaped(piece) && piece != []
    ensures var k := if piece[0] == '%' then 3 else 1;
            && k <= |piece| && WellEscaped(piece[k..])
            && Decoded(piece) == [if k == 1 then piece[0] else DecodeEscape(piece[1], piece[2])] + Decoded(piece[k..])
  {
    var k := if piece[0] == '%' then 3 else 1;
    assert piece[0] == '%' ==> EscapeAt(piece, 0);
    EscapesShift(piece, k);
    DecodesIffWellEscaped(piece);
    DecodesIffWellEscaped(piece[k..]);
  }

  lemma DecodedIsEmpty(piece: string)
    requires WellEscaped(piece)
    ensures Decoded(piece) == [] <==> piece == []
  {
    if piece == [] {
      EmptyDecodes();
    } else {
      DecodedOnce(piece);
    }
  }

  /** How long the first character is written. */
  function FirstLength(piece: string): nat {
    if piece != [] && piece[0] == '%' then 3 else 1
  }

  /** A spelling of one dot. */
  predicate IsDot(s: string) {
    s == "." || s == "%2e" || s == "%2E"
  }

  lemma EscapedDot(hi: char, lo: char)
    requires IsHex(hi) && IsHex(lo)
    ensures DecodeEscape(hi, lo) == '.' <==> hi == '2' && (lo == 'e' || lo == 'E')
  {
  }

  lemma DotInFront(piece: string)
    requires WellEscaped(piece) && piece != []
    ensures FirstLength(piece) <= |piece| && Decoded(piece) != []
    ensures Decoded(piece)[0] == '.' <==> IsDot(piece[..FirstLength(piece)])
  {
    DecodedOnce(piece);
    if piece[0] == '%' {
      assert EscapeAt(piece, 0);
      EscapedDot(piece[1], piece[2]);
      assert piece[..3] == [piece[0], piece[1], piece[2]];
    }
  }

  lemma DotsInLowerCase(s: string)
    ensures IsDot(s) <==> Lower(s) == "." || Lower(s) == "%2e"
  {
    if Lower(s) == "." {
      Urls.LowerAt(s, ".", 0);
      assert s == [s[0]];
    }
    if Lower(s) == "%2e" {
      Urls.LowerAt(s, "%2e", 0);
      Urls.LowerAt(s, "%2e", 1);
      Urls.LowerAt(s, "%2e", 2);
      assert s == [s[0], s[1], s[2]];
    }
    assert Lower("%2e") == "%2e" && Lower("%2E") == "%2e";
  }

  lemma SingleDotIsExact(piece: string)
    ensures Urls.IsSingleDot(piece) <==> Denotes(piece, ".")
  {
    DotsInLowerCase(piece);
    if Urls.IsSingleDot(piece) {
      Urls.HalfDotDecodes(piece);
    }
    if Denotes(piece, ".") {
      DecodedIsEmpty(piece);
      DotInFront(piece);
      DecodedOnce(piece);
      var k := if piece[0] == '%' then 3 else 1;
      DecodedIsEmpty(piece[k..]);
      assert piece == piece[..k];
    }
  }

  lemma LowerOfTwo(a: string, b: string)
    ensures Lower(a + b) == Lower(a) + Lower(b)
  {
  }

  lemma DoubleDotIsTwo(a: string, b: string)
    requires IsDot(a) && IsDot(b)
    ensures Urls.IsDoubleDot(a + b)
  {
    LowerOfTwo(a, b);
    DotsInLowerCase(a);
    DotsInLowerCase(b);
    if Lower(a) == "." && Lower(b) == "." {
      Urls.LowerAt(a, ".", 0);
      Urls.LowerAt(b, ".", 0);
      assert a + b == "..";
    }
    assert "." + "%2e" == ".%2e" && "%2e" + "." == "%2e." && "%2e" + "%2e" == "%2e%2e";
  }

  /** Where the first dot of a double dot ends. */
  lemma DoubleDotSplits(piece: string) returns (k: nat)
    requires Urls.IsDoubleDot(piece)
    ensures k <= |piece| && IsDot(piece[..k]) && IsDot(piece[k..])
  {
    if piece == ".." {
      k := 1;
      assert piece[..1] == "." && piece[1..] == ".";
    } else {
      var l := Lower(piece);
      k := if l == ".%2e" then 1 else 3;
      assert piece == piece[..k] + piece[k..];
      LowerOfTwo(piece[..k], piece[k..]);
      assert Lower(piece[..k]) == l[..k] && Lower(piece[k..]) == l[k..];
      assert ".%2e"[..1] == "." && ".%2e"[1..] == "%2e";
      assert "%2e."[..3] == "%2e" && "%2e."[3..] == ".";
      assert "%2e%2e"[..3] == "%2e" && "%2e%2e"[3..] == "%2e";
      DotsInLowerCase(piece[..k]);
      DotsInLowerCase(piece[k..]);
    }
  }

  lemma DoubleDotIsExact(piece: string)
    ensures Urls.IsDoubleDot(piece) <==> Denotes(piece, "..")
  {
    hide Decoded;
    hide WellEscaped;
    hide Urls.IsDoubleDot;
    if Urls.IsDoubleDot(piece) {
      var k := DoubleDotSplits(piece);
      DotsInLowerCase(piece[..k]);
      DotsInLowerCase(piece[k..]);
      Urls.HalfDotDecodes(piece[..k]);
      Urls.HalfDotDecodes(piece[k..]);
      DecodeConcat(piece[..k], piece[k..]);
      assert piece == piece[..k] + piece[k..];
    }
    if Denotes(piece, "..") {
      DecodedIsEmpty(piece);
      DotInFront(piece);
      DecodedOnce(piece);
      var a, b := piece[..FirstLength(piece)], piece[FirstLength(piece)..];
      assert Decoded(b) == Decoded(piece)[1..] == ".";
      SingleDotIsExact(b);
      DotsInLowerCase(b);
      DoubleDotIsTwo(a, b);
      assert piece == a + b;
    }
  }

  // ----- the parser and the standard -----

  /** A segment with its dots written plainly. */
  function Plain(piece: string): string {
    if Urls.IsDoubleDot(piece) then ".." else if Urls.IsSingleDot(piece) then "." else piece
  }

  function AllPlain(pieces: seq<string>): (r: seq<string>)
    ensures |r| == |pieces| && forall k :: 0 <= k < |r| ==> r[k] == Plain(pieces[k])
  {
    seq(|pieces|, k requires 0 <= k < |pieces| => Plain(pieces[k]))
  }

  lemma {:induction false} PathPrepend(first: bytes, rest: seq<bytes>)
    ensures Path([first] + rest) == "/" + first + Path(rest)
  {
    var all := [first] + rest;
    if rest == [] {
      assert all[..0] == [];
      assert Path(all) == Path([]) + "/" + first;
    } else {
      var n := |rest| - 1;
      PathPrepend(first, rest[..n]);
      assert all[..n + 1] == [first] + rest[..n];
      Assoc("/" + first, Path(rest[..n]), "/");
      Assoc("/" + first, Path(rest[..n]) + "/", rest[n]);
    }
  }

  /** What the standard's step sees first. */
  lemma FirstOfJoined(first: bytes, rest: seq<bytes>)
    requires '/' !in first
    ensures var path := Path([first] + rest);
            && path != [] && path[0] == '/' && FirstOfPath(path) == first
            && path[SegmentLength(path)..] == Path(rest)
            && AfterDots(path) == if rest == [] then "/" else Path(rest)
  {
    hide Path;
    PathPrepend(first, rest);
    var path := Path([first] + rest);
    assert path[1..] == first + Path(rest);
    EmptyPath();
    if rest == [] {
      assert path[1..] == first;
    } else {
      PathPrepend(rest[0], rest[1..]);
      assert rest == [rest[0]] + rest[1..];
      assert Path(rest)[0] == '/';
      FirstOfConcat(first, '/', Path(rest)[1..]);
      assert path[1..] == first + ['/'] + Path(rest)[1..];
    }
  }

  lemma PlainHasNoSlash(piece: string)
    requires '/' !in piece
    ensures '/' !in Plain(piece)
    ensures Plain(piece) == ".." <==> Urls.IsDoubleDot(piece)
    ensures Plain(piece) == "." <==> Urls.IsSingleDot(piece) && !Urls.IsDoubleDot(piece)
  {
  }

  lemma WalkLast(stack: seq<string>)
    ensures Urls.Walk([], stack) == stack
  {
  }

  lemma WalkStep(pieces: seq<string>, held: seq<string>)
    requires pieces != []
    ensures var first, rest := pieces[0], pieces[1..];
            var kept := if Plain(first) != ".." then held else if held == [] then [] else held[..|held| - 1];
            Urls.Walk(pieces, held)
            == Urls.Walk(rest, if !IsDots(Plain(first)) then held + [first]
                               else if rest == [] then kept + [""] else kept)
  {
    hide Urls.IsSingleDot;
    hide Urls.IsDoubleDot;
    DotsAreNoOthers(pieces[0]);
    assert held + [] == held;
    assert held != [] ==> held[..|held| - 1] + [] == held[..|held| - 1];
  }

  lemma DotsAreNoOthers(piece: string)
    ensures IsDots(piece) ==> Urls.IsSingleDot(piece) || Urls.IsDoubleDot(piece)
    ensures IsDots(Plain(piece)) || Plain(piece) == piece
  {
  }

  lemma WithoutLastHeld(held: seq<bytes>)
    requires NoSlashes(held)
    ensures WithoutLast(Path(held)) == Path(if held == [] then [] else held[..|held| - 1])
  {
    if held == [] {
      EmptyPath();
    } else {
      WithoutLastOfPath([], held);
      assert [] + Path(held) == Path(held) && [] + Path(held[..|held| - 1]) == Path(held[..|held| - 1]);
    }
  }

  /** The parser's walk over the segments is the standard's over the text they make. */
  lemma {:induction false} WalkIsRemoval(pieces: seq<string>, held: seq<string>)
    requires pieces != [] && NoSlashes(pieces) && NoSlashes(held)
    ensures Path(Urls.Walk(pieces, held)) == RemoveDots(Path(AllPlain(pieces)), Path(held))
    decreases |pieces|
  {
    hide RemoveDots;
    hide Path;
    hide Plain;
    hide WithoutLast;
    hide SegmentLength;
    hide Urls.Walk;
    var first, rest := pieces[0], pieces[1..];
    var plain, more := Plain(first), AllPlain(rest);
    assert AllPlain(pieces) == [plain] + more;
    var text := Path(AllPlain(pieces));
    assert '/' !in pieces[0];
    PlainHasNoSlash(first);
    DotsAreNoOthers(first);
    FirstOfJoined(plain, more);
    StepOfSegment(text, Path(held));
    WalkStep(pieces, held);
    assert forall k :: 0 <= k < |rest| ==> rest[k] == pieces[k + 1];
    var kept := if plain == ".." then (if held == [] then [] else held[..|held| - 1]) else held;
    if IsDots(plain) {
      WithoutLastHeld(held);
      if rest == [] {
        WalkLast(kept + [""]);
        RemoveDotsOfSlash(Path(kept));
        PathAppend(kept, "");
        assert "/" + "" == "/";
      } else {
        WalkIsRemoval(rest, kept);
      }
    } else {
      PathAppend(held, first);
      if rest == [] {
        WalkLast(held + [first]);
        EmptyPath();
        NothingLeft(Path(held + [first]));
      } else {
        WalkIsRemoval(rest, held + [first]);
      }
    }
  }

  lemma {:induction false} JoinedIsPath(pieces: seq<bytes>)
    requires pieces != []
    ensures "/" + JoinWith(pieces, '/') == Path(pieces)
  {
    hide Path;
    var first, rest := pieces[0], pieces[1..];
    assert pieces == [first] + rest;
    PathPrepend(first, rest);
    EmptyPath();
    if rest == [] {
      assert "/" + first + [] == "/" + first;
    } else {
      JoinedIsPath(rest);
      assert "/" + (first + ['/'] + JoinWith(rest, '/')) == "/" + first + ("/" + JoinWith(rest, '/'));
    }
  }

  lemma {:induction false} WalkKeepsSomething(pieces: seq<string>, held: seq<string>)
    requires pieces != []
    ensures Urls.Walk(pieces, held) != []
    decreases |pieces|
  {
    hide Plain;
    hide Urls.Walk;
    var first, rest := pieces[0], pieces[1..];
    WalkStep(pieces, held);
    var kept := if Plain(first) != ".." then held else if held == [] then [] else held[..|held| - 1];
    var next := if !IsDots(Plain(first)) then held + [first] else if rest == [] then kept + [""] else kept;
    if rest == [] {
      WalkLast(next);
    } else {
      WalkKeepsSomething(rest, next);
    }
  }

  /** A path as the standard would have it written: a slash before each segment, whichever separator
      it had, and dots unescaped. */
  function Plainly(raw: string): string
    requires raw != []
  {
    Path(AllPlain(SplitSeparators(raw[1..])))
  }

  /** The parser gives every path the standard's meaning, once it is written plainly. */
  lemma ParserFollowsTheStandard(raw: string)
    requires raw != []
    ensures Urls.NormalizePath(raw) == RemoveDotSegments(Plainly(raw))
  {
    hide Urls.Walk;
    hide RemoveDots;
    hide SplitSeparators;
    hide AllPlain;
    var pieces := SplitSeparators(raw[1..]);
    WalkIsRemoval(pieces, []);
    WalkKeepsSomething(pieces, []);
    JoinedIsPath(Urls.Walk(pieces, []));
    EmptyPath();
  }

  /** Without escapes and backslashes nothing has to be rewritten first. */
  lemma PlainPathsAreTheStandards(raw: string)
    requires raw != [] && raw[0] == '/' && '%' !in raw && '\\' !in raw
    ensures Urls.NormalizePath(raw) == RemoveDotSegments(raw)
  {
    hide Urls.NormalizePath;
    hide RemoveDotSegments;
    hide Plainly;
    ParserFollowsTheStandard(raw);
    PlainIsItself(raw);
  }

  lemma PlainIsItself(raw: string)
    requires raw != [] && raw[0] == '/' && '%' !in raw && '\\' !in raw
    ensures Plainly(raw) == raw
  {
    hide Plain;
    hide Path;
    hide SplitOn;
    hide SplitSeparators;
    hide JoinWith;
    var tail := raw[1..];
    var pieces := SplitOn(tail, '/');
    SplitsAgree(tail);
    JoinSplit(tail, '/');
    forall k | 0 <= k < |pieces| ensures Plain(pieces[k]) == pieces[k] {
      PiecesHoldNoEscape(tail, k);
      UnescapedIsPlain(pieces[k]);
    }
    assert AllPlain(pieces) == pieces;
    JoinedIsPath(pieces);
    assert raw == "/" + tail;
  }

  lemma {:induction false} PiecesHoldNoEscape(s: string, k: nat)
    requires '%' !in s && k < |SplitOn(s, '/')|
    ensures '%' !in SplitOn(s, '/')[k]
    decreases |s|
  {
    match FirstOf(s, '/')
    case None =>
    case Some(i) =>
      if k > 0 {
        PiecesHoldNoEscape(s[i + 1..], k - 1);
      }
  }

  lemma UnescapedIsPlain(piece: string)
    requires '%' !in piece
    ensures Plain(piece) == piece
  {
    hide Decoded;
    PlainTextDecodes(piece);
    SingleDotIsExact(piece);
    DoubleDotIsExact(piece);
  }
}
