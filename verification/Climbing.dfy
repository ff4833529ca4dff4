/** When a path, decoded, leaves the base it was put beneath. */
module Climbing {
  import opened Octets
  import opened Target
  import opened Containment
  import opened Meaning

  /** Walking these segments, `..` is met with none of them left to remove. */
  predicate Climbs(pieces: seq<bytes>, depth: nat)
    decreases |pieces|
  {
    pieces != []
    && if pieces[0] == ".." then depth == 0 || Climbs(pieces[1..], depth - 1)
       else Climbs(pieces[1..], if pieces[0] == "." then depth else depth + 1)
  }

  // ----- what is in the output -----

  /** The segments that the output holds, each with its slash. */
  function Path(pieces: seq<bytes>): bytes {
    if pieces == [] then [] else Path(pieces[..|pieces| - 1]) + "/" + pieces[|pieces| - 1]
  }

  ghost predicate NoSlashes(pieces: seq<bytes>) {
    forall k :: 0 <= k < |pieces| ==> '/' !in pieces[k]
  }

  lemma PathAppend(pieces: seq<bytes>, piece: bytes)
    ensures Path(pieces + [piece]) == Path(pieces) + ("/" + piece)
  {
    assert (pieces + [piece])[..|pieces|] == pieces;
    Assoc(Path(pieces), "/", piece);
  }

  lemma PathStartsWithSlash(pieces: seq<bytes>)
    ensures Path(pieces) == [] || Path(pieces)[0] == '/'
  {
    if pieces != [] {
      PathStartsWithSlash(pieces[..|pieces| - 1]);
    }
  }

  lemma {:induction false} WithoutLastSegment(x: bytes, piece: bytes)
    requires '/' !in piece
    ensures WithoutLast(x + "/" + piece) == x
    decreases |piece|
  {
    var all := x + "/" + piece;
    var shorter := all[..|all| - 1];
    if piece == [] {
      assert shorter == x;
    } else {
      assert shorter == x + "/" + piece[..|piece| - 1];
      WithoutLastSegment(x, piece[..|piece| - 1]);
    }
  }

  lemma WithoutLastOfPath(b: bytes, pieces: seq<bytes>)
    requires pieces != [] && NoSlashes(pieces)
    ensures WithoutLast(b + Path(pieces)) == b + Path(pieces[..|pieces| - 1])
  {
    var n := |pieces| - 1;
    Assoc(b, Path(pieces[..n]), "/");
    Assoc(b, Path(pieces[..n]) + "/", pieces[n]);
    WithoutLastSegment(b + Path(pieces[..n]), pieces[n]);
  }

  // ----- one segment at a time -----

  /** The segments of a path that starts with a slash. */
  function PathSegments(path: bytes): seq<bytes> {
    SplitOn(path, '/')[1..]
  }

  function FirstOfPath(path: bytes): bytes
    requires path != []
  {
    path[1..SegmentLength(path)]
  }

  /** What is left to do after a dot segment: a path never ends in one, but in the slash before. */
  function AfterDots(path: bytes): bytes
    requires path != []
  {
    var rest := path[SegmentLength(path)..];
    if rest == [] then "/" else rest
  }

  lemma SegmentsStep(path: bytes)
    requires path != [] && path[0] == '/'
    ensures var rest := path[SegmentLength(path)..];
            && '/' !in FirstOfPath(path) && (rest == [] || rest[0] == '/')
            && path == "/" + FirstOfPath(path) + rest
            && PathSegments(path) == [FirstOfPath(path)] + (if rest == [] then [] else PathSegments(rest))
  {
    hide SegmentLength;
    FirstSegmentSplits(path);
  }

  lemma StepOfSegment(path: bytes, output: bytes)
    requires path != [] && path[0] == '/'
    ensures FirstOfPath(path) == "." ==> RemoveDots(path, output) == RemoveDots(AfterDots(path), output)
    ensures FirstOfPath(path) == ".." ==> RemoveDots(path, output) == RemoveDots(AfterDots(path), WithoutLast(output))
    ensures !IsDots(FirstOfPath(path)) ==>
              RemoveDots(path, output) == RemoveDots(path[SegmentLength(path)..], output + ("/" + FirstOfPath(path)))
  {
    SegmentsStep(path);
    var n, segment := SegmentLength(path), FirstOfPath(path);
    var rest := path[n..];
    if segment == "." {
      DotStep(rest, output);
    } else if segment == ".." {
      UpStepOf(rest, output);
    } else {
      NotADotStep(path, segment, rest);
      assert path[..n] == "/" + segment;
    }
  }

  lemma DotStep(rest: bytes, output: bytes)
    requires rest == [] || rest[0] == '/'
    ensures RemoveDots("/" + "." + rest, output) == RemoveDots(if rest == [] then "/" else rest, output)
  {
    var path := "/" + "." + rest;
    assert path[0] == '/' && path[1] == '.';
    if rest == [] {
      assert path == "/.";
    } else {
      assert path[2] == '/' && path[2..] == rest;
    }
  }

  lemma UpStepOf(rest: bytes, output: bytes)
    requires rest == [] || rest[0] == '/'
    ensures RemoveDots("/" + ".." + rest, output) == RemoveDots(if rest == [] then "/" else rest, WithoutLast(output))
  {
    var path := "/" + ".." + rest;
    assert path[0] == '/' && path[1] == '.' && path[2] == '.';
    if rest == [] {
      assert path == "/..";
    } else {
      assert path[3] == '/' && path[3..] == rest;
    }
  }

  // ----- a path that does not climb stays beneath -----

  lemma SlashAfterPath(b: bytes, pieces: seq<bytes>, more: bytes)
    requires more != [] && more[0] == '/'
    ensures b + "/" <= b + Path(pieces) + more
  {
    PathStartsWithSlash(pieces);
    var all := Path(pieces) + more;
    assert all[0] == '/';
    assert b + Path(pieces) + more == b + "/" + all[1..];
  }

  lemma {:induction false} StaysBeneath(path: bytes, b: bytes, held: seq<bytes>)
    requires path != [] && path[0] == '/' && NoSlashes(held)
    requires !Climbs(PathSegments(path), |held|)
    ensures b + "/" <= RemoveDots(path, b + Path(held))
    decreases |path|
  {
    hide RemoveDots;
    hide PathSegments;
    hide SegmentLength;
    hide WithoutLast;
    hide Path;
    var piece, rest := FirstOfPath(path), path[SegmentLength(path)..];
    SegmentsStep(path);
    StepOfSegment(path, b + Path(held));
    if IsDots(piece) {
      var kept := if piece == ".." then held[..|held| - 1] else held;
      if piece == ".." {
        WithoutLastOfPath(b, held);
      }
      if rest == [] {
        RemoveDotsOfSlash(b + Path(kept));
        SlashAfterPath(b, kept, "/");
      } else {
        StaysBeneath(rest, b, kept);
      }
    } else {
      var kept := held + [piece];
      PathAppend(held, piece);
      Assoc(b, Path(held), "/" + piece);
      if rest == [] {
        NothingLeft(b + Path(kept));
        SlashAfterPath(b, held, "/" + piece);
      } else {
        StaysBeneath(rest, b, kept);
      }
    }
  }

  lemma NothingLeft(output: bytes)
    ensures RemoveDots([], output) == output
  {
  }

  // ----- a path that climbs leaves some base -----

  lemma {:induction false} ClimbIsShort(path: bytes, name: bytes, held: seq<bytes>)
    requires path != [] && path[0] == '/' && NoSlashes(held) && '/' !in name
    requires Climbs(PathSegments(path), |held|)
    ensures |RemoveDots(path, "/" + name + Path(held))| <= |path|
    decreases |path|
  {
    hide RemoveDots;
    hide PathSegments;
    hide SegmentLength;
    hide WithoutLast;
    hide Path;
    var b := "/" + name;
    var piece, rest := FirstOfPath(path), path[SegmentLength(path)..];
    SegmentsStep(path);
    StepOfSegment(path, b + Path(held));
    if piece == ".." && held == [] {
      EmptyPath();
      assert b + [] == [] + "/" + name;
      WithoutLastSegment([], name);
      DotsShorten(AfterDots(path), []);
    } else if IsDots(piece) {
      var kept := if piece == ".." then held[..|held| - 1] else held;
      if piece == ".." {
        WithoutLastOfPath(b, held);
      }
      NoneClimb();
      ClimbIsShort(rest, name, kept);
    } else {
      PathAppend(held, piece);
      Assoc(b, Path(held), "/" + piece);
      NoneClimb();
      ClimbIsShort(rest, name, held + [piece]);
    }
  }

  lemma EmptyPath()
    ensures Path([]) == []
  {
  }

  lemma NoneClimb()
    ensures forall depth: nat :: !Climbs([], depth)
  {
  }

  // ----- exactly -----

  /** A base that is a directory without dot segments. */
  ghost predicate IsDirectory(base: bytes) {
    base != [] && base[0] == '/' && base[|base| - 1] == '/' && NoDots(base)
  }

  lemma {:induction false} RemoveDotsThrough(b: bytes, rest: bytes, output: bytes)
    requires b == [] || b[0] == '/'
    requires NoDots(b) && rest != [] && rest[0] == '/'
    ensures RemoveDots(b + rest, output) == RemoveDots(rest, output + b)
    decreases |b|
  {
    hide RemoveDots;
    hide PathSegments;
    hide NoDots;
    hide SegmentLength;
    if b == [] {
      assert b + rest == rest && output + b == output;
    } else {
      var n, piece := SegmentLength(b), FirstOfPath(b);
      SegmentsStep(b);
      NoDotsAfterFirst(b);
      CopyStep(piece, b[n..] + rest, output);
      assert b + rest == "/" + piece + (b[n..] + rest);
      RemoveDotsThrough(b[n..], rest, output + ("/" + piece));
      assert output + ("/" + piece) + b[n..] == output + b;
    }
  }

  lemma BeneathDirectory(base: bytes, path: bytes)
    requires IsDirectory(base) && !Climbs(SplitOn(path, '/'), 0)
    ensures base <= RemoveDotSegments(base + path)
  {
    var b := base[..|base| - 1];
    var rest := "/" + path;
    var empty: bytes := [];
    assert base == b + ['/'] + empty;
    SplitConcat(b, '/', empty);
    SplitFirst(empty, '/', path);
    assert rest == empty + ['/'] + path;
    DirectoryIsClean(b);
    hide RemoveDots;
    assert base + path == b + rest;
    RemoveDotsThrough(b, rest, []);
    EmptyPath();
    assert [] + b == b + Path([]);
    StaysBeneath(rest, b, []);
  }

  lemma DirectoryIsClean(b: bytes)
    requires NoDots(b + ['/'] + [])
    ensures NoDots(b) && (b == [] || (b + ['/'] + [])[0] == b[0])
  {
    SplitConcat(b, '/', []);
    hide SplitOn;
    var pieces, left := SplitOn(b + ['/'] + [], '/'), SplitOn(b, '/');
    assert forall k :: 0 <= k < |left| ==> left[k] == pieces[k];
  }

  /** Exactly which paths stay beneath every directory they are appended to: those whose segments
      never climb. */
  lemma StayingBeneathIsExact(path: bytes)
    ensures (forall base :: IsDirectory(base) ==> base <= RemoveDotSegments(base + path))
            <==> !Climbs(SplitOn(path, '/'), 0)
  {
    hide RemoveDots;
    hide Climbs;
    hide IsDirectory;
    if !Climbs(SplitOn(path, '/'), 0) {
      forall base | IsDirectory(base) ensures base <= RemoveDotSegments(base + path) {
        BeneathDirectory(base, path);
      }
    } else {
      var base := LeftDirectory(path);
    }
  }

  lemma LeftDirectory(path: bytes) returns (base: bytes)
    requires Climbs(SplitOn(path, '/'), 0)
    ensures IsDirectory(base) && !(base <= RemoveDotSegments(base + path))
  {
    var name: bytes := seq(|path| + 3, _ => 'x');
    var b, rest := "/" + name, "/" + path;
    var empty: bytes := [];
    base := b + "/";
    NamedDirectory(name);
    SplitFirst(empty, '/', path);
    assert rest == empty + ['/'] + path;
    hide RemoveDots;
    assert base + path == b + rest;
    RemoveDotsThrough(b, rest, []);
    EmptyPath();
    assert [] + b == "/" + name + Path([]);
    ClimbIsShort(rest, name, []);
  }

  lemma NamedDirectory(name: bytes)
    requires '/' !in name && !IsDots(name)
    ensures NoDots("/" + name) && IsDirectory("/" + name + "/")
  {
    var empty: bytes := [];
    SplitFirst(empty, '/', name);
    OnePiece(name);
    assert empty + ['/'] + name == "/" + name;
    SplitConcat("/" + name, '/', empty);
    assert "/" + name + ['/'] + empty == "/" + name + "/";
    assert SplitOn(empty, '/') == [empty];
  }

  // ----- what this means for a fetched path -----

  /** What the path names beyond its base, decoded, does not leave the decoded base, unless its
      segments climb: for an origin that takes only `/`, and for one that takes `\` too. */
  ghost predicate StaysUnlessItClimbs(base: string, path: string) {
    && base <= path && WellEscaped(base) && WellEscaped(path) && WellEscaped(path[|base|..])
    && var rest := Decoded(path[|base|..]);
       && (!Climbs(SplitOn(rest, '/'), 0) ==> Decoded(base) <= RemoveDotSegments(Decoded(path)))
       && (HidesNoDots(base) && !Climbs(SplitSeparators(rest), 0) ==>
             Slashed(Decoded(base)) <= RemoveDotSegments(Slashed(Decoded(path))))
  }

  lemma ExtendedBaseStays(base: string, rest: string)
    requires CleanBase(base) && base[|base| - 1] == '/' && WellEscaped(base + rest)
    ensures StaysUnlessItClimbs(base, base + rest)
  {
    EscapesAround(base, rest);
    assert (base + rest)[|base|..] == rest;
    hide Decoded;
    hide NoDots;
    hide SplitOn;
    hide SplitSeparators;
    hide Climbs;
    hide RemoveDotSegments;
    DecodeConcat(base, rest);
    DecodedStartsWithSlash(base);
    DecodedEndsWithSlash(base);
    var b, d := Decoded(base), Decoded(rest);
    if !Climbs(SplitOn(d, '/'), 0) {
      BeneathDirectory(b, d);
    }
    if HidesNoDots(base) && !Climbs(SplitSeparators(d), 0) {
      HidesNoDotsWhenSlashed(base);
      SlashedConcat(b, d);
      SlashedSplits(d);
      BeneathDirectory(Slashed(b), Slashed(d));
    }
  }

  lemma BaseItselfStays(base: string)
    requires CleanBase(base)
    ensures StaysUnlessItClimbs(base, base)
  {
    hide Decoded;
    hide NoDots;
    hide RemoveDotSegments;
    EmptyDecodes();
    assert base[|base|..] == [];
    DecodedStartsWithSlash(base);
    RemovingNothingIsExact(Decoded(base));
    if HidesNoDots(base) {
      HidesNoDotsWhenSlashed(base);
      RemovingNothingIsExact(Slashed(Decoded(base)));
    }
  }
}
