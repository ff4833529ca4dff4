/** Why a target is refused: each error, rule by rule, in the order in which they are applied. */
module TargetRules {
  import opened Octets
  import opened Errors
  import opened Target
  import Utf8

  // ----- length -----

  /** The limit is on the bytes of the text. */
  lemma {:induction false} LengthIsOfBytes(s: string)
    ensures Utf8Len(s) == |Utf8.TextBytes(s)|
  {
    if s != [] {
      LengthIsOfBytes(s[1..]);
    }
  }

  // ----- path and query -----

  /** Path and query: what stands before and after the first question mark. */
  lemma PartsOfTarget(target: string)
    ensures '?' !in PathOf(target) && (QueryOf(target).None? <==> '?' !in target)
    ensures target == PathOf(target) + match QueryOf(target) case None => "" case Some(q) => "?" + q
  {
  }

  // ----- segments -----

  /** What is wrong with a segment whose escapes are in order. */
  ghost predicate IsWrong(segment: string, isLast: bool, allow: bool, e: TargetError)
    requires WellEscaped(segment)
  {
    if segment == [] then !isLast && e == EmptySegment
    else if Decoded(segment) == "." || Decoded(segment) == ".." then e == DotSegment
    else !allow && ('/' in Decoded(segment) || '\\' in Decoded(segment)) && e == EncodedSeparator
  }

  ghost predicate AllWellEscaped(segments: seq<string>) {
    forall k :: 0 <= k < |segments| ==> WellEscaped(segments[k])
  }

  /** The first wrong segment, and what is wrong with it. */
  ghost predicate FirstWrong(segments: seq<string>, allow: bool, k: nat, e: TargetError)
    requires AllWellEscaped(segments)
  {
    && k < |segments| && IsWrong(segments[k], k == |segments| - 1, allow, e)
    && forall j :: 0 <= j < k ==> GoodSegment(segments[j], j == |segments| - 1, allow)
  }

  lemma SegmentErrors(segment: string, isLast: bool, allow: bool, e: TargetError)
    requires WellEscaped(segment)
    ensures CheckSegment(segment, isLast, allow) == Err(e) <==> IsWrong(segment, isLast, allow, e)
  {
    DecodesIffWellEscaped(segment);
  }

  lemma SegmentIsGood(segment: string, isLast: bool, allow: bool)
    requires WellEscaped(segment)
    ensures CheckSegment(segment, isLast, allow).Ok? <==> GoodSegment(segment, isLast, allow)
  {
    DecodesIffWellEscaped(segment);
  }

  lemma {:induction false} SegmentsErrors(segments: seq<string>, allow: bool, e: TargetError)
    requires AllWellEscaped(segments)
    ensures CheckSegments(segments, allow) == Err(e) <==> exists k :: FirstWrong(segments, allow, k, e)
  {
    hide WellEscaped;
    hide IsWrong;
    hide GoodSegment;
    hide CheckSegment;
    if segments != [] {
      var rest, n := segments[1..], |segments|;
      assert forall k :: 0 <= k < |rest| ==> rest[k] == segments[k + 1];
      SegmentErrors(segments[0], n == 1, allow, e);
      SegmentIsGood(segments[0], n == 1, allow);
      SegmentsErrors(rest, allow, e);
      if CheckSegment(segments[0], n == 1, allow).Ok? {
        if k: nat :| FirstWrong(rest, allow, k, e) {
          LaterWrong(segments, allow, k, e);
        }
        if k: nat :| FirstWrong(segments, allow, k, e) {
          assert k > 0;
          LaterWrong(segments, allow, k - 1, e);
        }
      } else {
        assert CheckSegment(segments[0], n == 1, allow) == Err(e) ==> FirstWrong(segments, allow, 0, e);
      }
    }
  }

  lemma LaterWrong(segments: seq<string>, allow: bool, k: nat, e: TargetError)
    requires segments != [] && AllWellEscaped(segments)
    requires GoodSegment(segments[0], |segments| == 1, allow)
    ensures AllWellEscaped(segments[1..])
    ensures FirstWrong(segments[1..], allow, k, e) <==> FirstWrong(segments, allow, k + 1, e)
  {
    hide WellEscaped;
    hide IsWrong;
    hide GoodSegment;
    var rest, n := segments[1..], |segments|;
    assert forall j :: 0 <= j < |rest| ==> rest[j] == segments[j + 1] && (j == |rest| - 1 <==> j + 1 == n - 1);
    if FirstWrong(segments, allow, k + 1, e) {
      forall j | 0 <= j < k ensures GoodSegment(rest[j], j == |rest| - 1, allow) {
        assert rest[j] == segments[j + 1];
        assert GoodSegment(segments[j + 1], j + 1 == n - 1, allow);
      }
    }
  }

  // ----- the whole target -----

  /** The rules that come before the path is looked at, with their errors. */
  ghost predicate BreaksForm(target: string, e: TargetError) {
    if |Utf8.TextBytes(target)| > 4096 then e == TargetError.TooLong
    else if exists i :: 0 <= i < |target| && !(0x21 <= target[i] as int <= 0x7E) then e == NonAscii
    else if target == "" || target[0] != '/' then e == NotOriginForm
    else if |target| > 1 && target[1] == '/' then e == ProtocolRelative
    else '#' in target && e == Fragment
  }

  ghost predicate HasForm(target: string) {
    && |target| <= 4096 && (forall i :: 0 <= i < |target| ==> 0x21 <= target[i] as int <= 0x7E)
    && target != "" && target[0] == '/' && (|target| > 1 ==> target[1] != '/') && '#' !in target
  }

  lemma FormErrors(target: string, allow: bool)
    ensures !HasForm(target) ==> Normalize(target, allow).Err? && BreaksForm(target, Normalize(target, allow).error)
    ensures HasForm(target) ==> !exists e :: BreaksForm(target, e)
  {
    hide CheckPath;
    hide PathOf;
    hide QueryOf;
    LengthIsOfBytes(target);
    if All(target, IsPrintable) {
      AsciiLength(target);
    } else {
      var i :| 0 <= i < |target| && !IsPrintable(target[i]);
    }
    hide Utf8Len;
    hide Utf8.TextBytes;
  }

  /** The segments of the path of a target with the right form. */
  function SegmentsOf(target: string): seq<string> {
    if PathOf(target) == [] then [] else SplitOn(PathOf(target)[1..], '/')
  }

  lemma SegmentsAreEscaped(target: string)
    requires WellEscaped(PathOf(target))
    ensures AllWellEscaped(SegmentsOf(target))
  {
    var path := PathOf(target);
    if path != [] {
      var tail := path[1..];
      forall j | 0 <= j < |tail| && tail[j] == '%' ensures EscapeAt(tail, j) {
        assert path[j + 1] == tail[j];
      }
      PiecesAreWellEscaped(tail, '/');
    }
  }

  /** A target of the right form is refused for a bad escape in its path; or else for its first
      wrong segment; or else for a bad escape in its query. */
  lemma TargetErrors(target: string, allow: bool, e: TargetError)
    requires HasForm(target)
    ensures !WellEscaped(PathOf(target)) ==> Normalize(target, allow) == Err(BadEscape)
    ensures WellEscaped(PathOf(target)) ==> AllWellEscaped(SegmentsOf(target))
    ensures WellEscaped(PathOf(target)) ==>
              (Normalize(target, allow) == Err(e)
               <==> (exists k :: FirstWrong(SegmentsOf(target), allow, k, e))
                    || (GoodSegments(SegmentsOf(target), allow) && e == BadEscape
                        && QueryOf(target).Some? && !WellEscaped(QueryOf(target).value)))
  {
    FormIsPassed(target, allow);
    hide Normalize;
    var path, query := PathOf(target), QueryOf(target);
    EscapesAreExact(path, 0);
    if query.Some? {
      EscapesAreExact(query.value, 0);
    }
    if WellEscaped(path) {
      SegmentsAreEscaped(target);
      SegmentsErrors(SegmentsOf(target), allow, e);
      SegmentsAreExact(SegmentsOf(target), allow);
    }
    hide WellEscaped;
    hide SplitOn;
    hide FirstWrong;
    hide CheckSegments;
    hide CheckEscapesFrom;
  }

  lemma FormIsPassed(target: string, allow: bool)
    requires HasForm(target)
    ensures PathOf(target) != []
    ensures var path, query := PathOf(target), QueryOf(target);
            Normalize(target, allow)
            == match CheckPath(path, allow)
               case Err(e) => Err(e)
               case Ok(_) => if query.Some? && CheckEscapesFrom(query.value, 0).Err? then Err(BadEscape)
                             else Ok(NormalizedTarget(path[1..], query))
  {
    hide CheckPath;
    AsciiLength(target);
    assert PathOf(target)[0] == '/' by {
      assert target[0] == '/';
    }
  }
}
