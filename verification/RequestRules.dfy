/** The request head, rule by rule: which lines are read as what, and why a head is refused. */
module RequestRules {
  import opened Octets
  import opened Errors
  import opened Framing
  import opened Request
  import opened RequestGrammar

  // ----- the request line -----

  /** Two texts and whatever stands in the place of the version, between single spaces. */
  ghost predicate IsStartLine(line: bytes, verb: string, target: string, text: string) {
    line == verb + " " + target + " " + text && IsToken(verb) && IsTarget(target) && ' ' !in text
  }

  ghost predicate StartsOtherwise(line: bytes) {
    exists verb, target, text ::
      IsStartLine(line, verb, target, text) && text != "HTTP/1.1" && text != "HTTP/1.0"
  }

  lemma ThreeParts(a: bytes, b: bytes, c: bytes)
    ensures a + " " + (b + " " + c) == a + " " + b + " " + c
  {
    Assoc(a + " ", b + " ", c);
    Assoc(a + " ", b, " ");
  }

  lemma StartLineIsSplit(line: bytes, verb: string, target: string, text: string)
    requires IsStartLine(line, verb, target, text)
    ensures ParseRequestLine(line)
            == if text == "HTTP/1.1" then Ok((verb, target, Http11))
               else if text == "HTTP/1.0" then Ok((verb, target, Http10)) else Err(BadVersion)
  {
    var rest := target + " " + text;
    assert ' ' !in verb by {
      assert forall i :: 0 <= i < |verb| ==> IsTokenByte(verb[i]);
    }
    assert ' ' !in target by {
      assert forall i :: 0 <= i < |target| ==> IsPrintable(target[i]);
    }
    ThreeParts(verb, target, text);
    FirstOfConcat(verb, ' ', rest);
    FirstOfConcat(target, ' ', text);
    hide FirstOf;
    assert line == verb + [' '] + rest;
    assert line[..|verb|] == verb && line[|verb| + 1..] == rest;
    assert rest[..|target|] == target && rest[|target| + 1..] == text;
  }

  /** A request line is a method, a target and one of two versions. */
  lemma RequestLineIsExact(line: bytes, verb: string, target: string, version: Version)
    ensures ParseRequestLine(line) == Ok((verb, target, version))
            <==> IsStartLine(line, verb, target, if version == Http11 then "HTTP/1.1" else "HTTP/1.0")
  {
    hide IsToken;
    hide ParseRequestLine;
    var text := if version == Http11 then "HTTP/1.1" else "HTTP/1.0";
    VersionsHoldNoSpace(text);
    if ParseRequestLine(line) == Ok((verb, target, version)) {
      ParsedRequestLine(line, verb, target, version);
      ThreeParts(verb, target, text);
    }
    if IsStartLine(line, verb, target, text) {
      StartLineIsSplit(line, verb, target, text);
    }
  }

  lemma VersionsHoldNoSpace(text: string)
    requires text == "HTTP/1.1" || text == "HTTP/1.0"
    ensures ' ' !in text
  {
  }

  lemma BadVersionIsSplit(line: bytes) returns (verb: string, target: string, text: string)
    requires ParseRequestLine(line) == Err(BadVersion)
    ensures IsStartLine(line, verb, target, text) && text != "HTTP/1.1" && text != "HTTP/1.0"
  {
    hide AllOf;
    var i := FirstOf(line, ' ').value;
    var rest := line[i + 1..];
    var j := FirstOf(rest, ' ').value;
    verb, target, text := line[..i], rest[..j], rest[j + 1..];
    CutAt(line, i);
    CutAt(rest, j);
    ThreeParts(verb, target, text);
  }

  lemma CutAt(s: bytes, i: nat)
    requires i < |s| && s[i] == ' '
    ensures s == s[..i] + " " + s[i + 1..]
  {
  }

  /** It is refused for its version when only that is wrong, and in every other case as a whole. */
  lemma RequestLineErrors(line: bytes)
    ensures ParseRequestLine(line) == Err(BadVersion) <==> StartsOtherwise(line)
    ensures ParseRequestLine(line).Err? ==> ParseRequestLine(line).error in {BadVersion, BadRequestLine}
  {
    hide ParseRequestLine;
    hide IsStartLine;
    if ParseRequestLine(line) == Err(BadVersion) {
      var verb, target, text := BadVersionIsSplit(line);
    }
    if StartsOtherwise(line) {
      var verb, target, text :|
        IsStartLine(line, verb, target, text) && text != "HTTP/1.1" && text != "HTTP/1.0";
      StartLineIsSplit(line, verb, target, text);
    }
    OnlyTwoErrors(line);
  }

  lemma OnlyTwoErrors(line: bytes)
    ensures ParseRequestLine(line).Err? ==> ParseRequestLine(line).error in {BadVersion, BadRequestLine}
  {
  }

  // ----- header lines -----

  /** A field of this name and value, in some padding. */
  ghost predicate IsFieldOf(line: bytes, name: string, value: string) {
    exists pre, post :: IsPadded(line, name, pre, value, post)
  }

  ghost predicate IsPadded(line: bytes, name: string, pre: bytes, value: string, post: bytes) {
    && line == name + ":" + (pre + value + post) && IsToken(name)
    && All(pre, IsOws) && All(post, IsOws) && All(value, IsFieldByte) && IsTrimmed(value, IsOws)
  }

  /** A header line is a name, directly followed by a colon, and a trimmed value. */
  lemma HeaderLineIsExact(line: bytes, name: string, value: string)
    ensures ParseHeaderLine(line) == Ok((name, value)) <==> IsFieldOf(line, name, value)
  {
    hide ParseHeaderLine;
    if ParseHeaderLine(line) == Ok((name, value)) {
      var f := ParsedLineIsField(line);
      assert IsPadded(line, name, f.pre, value, f.post);
    }
    if pre, post :| IsPadded(line, name, pre, value, post) {
      FieldLineParses(Field(name, pre, value, post));
    }
  }

  ghost predicate IsHeaderLine(line: bytes) {
    exists name, value :: IsFieldOf(line, name, value)
  }

  lemma HeaderLineErrors(line: bytes)
    ensures ParseHeaderLine(line).Err? ==> ParseHeaderLine(line) == Err(BadHeader)
    ensures ParseHeaderLine(line).Err? <==> !IsHeaderLine(line)
  {
    hide IsFieldOf;
    OnlyOneError(line);
    hide ParseHeaderLine;
    if ParseHeaderLine(line).Ok? {
      HeaderLineIsExact(line, ParseHeaderLine(line).value.0, ParseHeaderLine(line).value.1);
    }
    if name, value :| IsFieldOf(line, name, value) {
      HeaderLineIsExact(line, name, value);
    }
  }

  lemma OnlyOneError(line: bytes)
    ensures ParseHeaderLine(line).Err? ==> ParseHeaderLine(line) == Err(BadHeader)
  {
  }

  /** A line that is read, standing after `k` others. */
  ghost predicate IsTaken(line: bytes, k: nat) {
    line != [] && k < 128 && line[0] != ' ' && line[0] != '\t' && IsHeaderLine(line)
  }

  /** What is wrong with a line that stands after `k` others: one too many, folded, or no field. */
  ghost predicate IsWrong(line: bytes, k: nat, e: HttpError) {
    && line != []
    && if k >= 128 then e == TooManyHeaders
       else if line[0] == ' ' || line[0] == '\t' then e == ObsFold
       else !IsHeaderLine(line) && e == BadHeader
  }

  /** The first wrong line, before any empty one. */
  ghost predicate FirstWrong(lines: seq<bytes>, already: nat, k: nat, e: HttpError) {
    k < |lines| && IsWrong(lines[k], already + k, e) && forall j :: 0 <= j < k ==> IsTaken(lines[j], already + j)
  }

  lemma {:induction false} HeadersErrors(lines: seq<bytes>, sofar: seq<Header>, e: HttpError)
    ensures ParseHeaders(lines, sofar) == Err(e) <==> exists k :: FirstWrong(lines, |sofar|, k, e)
    decreases |lines|
  {
    hide ParseHeaderLine;
    hide IsHeaderLine;
    if lines != [] && lines[0] != [] {
      var line, rest, n := lines[0], lines[1..], |sofar|;
      HeaderLineErrors(line);
      if IsTaken(line, n) {
        var h := ParseHeaderLine(line).value;
        HeadersErrors(rest, sofar + [h], e);
        var more := n + 1;
        if k: nat :| FirstWrong(rest, more, k, e) {
          LaterWrong(lines, n, k, e);
        }
        if k: nat :| FirstWrong(lines, n, k, e) {
          LaterWrong(lines, n, k - 1, e);
        }
      } else {
        assert IsWrong(line, n, e) <==> FirstWrong(lines, n, 0, e);
        if k: nat :| FirstWrong(lines, n, k, e) {
          FirstIsTaken(lines, n, k, e);
        }
      }
    }
  }

  lemma FirstIsTaken(lines: seq<bytes>, n: nat, k: nat, e: HttpError)
    requires FirstWrong(lines, n, k, e)
    ensures lines != [] && (k > 0 ==> IsTaken(lines[0], n))
  {
    assert k > 0 ==> IsTaken(lines[0], n + 0);
  }

  lemma LaterWrong(lines: seq<bytes>, n: nat, k: nat, e: HttpError)
    requires lines != [] && IsTaken(lines[0], n)
    ensures FirstWrong(lines[1..], n + 1, k, e) <==> FirstWrong(lines, n, k + 1, e)
  {
    hide IsHeaderLine;
    var rest := lines[1..];
    assert forall j :: 0 <= j < |rest| ==> rest[j] == lines[j + 1] && n + 1 + j == n + (j + 1);
    if FirstWrong(rest, n + 1, k, e) {
      forall j | 0 <= j < k + 1 ensures IsTaken(lines[j], n + j) {
        if j > 0 {
          assert IsTaken(rest[j - 1], n + 1 + (j - 1));
        }
      }
    }
    if FirstWrong(lines, n, k + 1, e) {
      forall j | 0 <= j < k ensures IsTaken(rest[j], n + 1 + j) {
        assert IsTaken(lines[j + 1], n + (j + 1));
      }
    }
  }

  // ----- the whole head -----

  ghost predicate AsksForUpgrade(headers: seq<Header>) {
    exists i :: 0 <= i < |headers| && EqIgnoreCase(headers[i].0, "Upgrade")
  }

  lemma UpgradeByName(headers: seq<Header>)
    ensures FindHeader(headers, UPGRADE).Some? <==> AsksForUpgrade(headers)
  {
    assert Lower("Upgrade") == Lower("upgrade");
    FindHeaderIsExact(headers, UPGRADE);
  }

  /** Why a head of these lines is refused, in the order in which the reasons are looked for: its
      length; its request line; the first wrong header line; its framing; an upgrade. */
  ghost predicate IsReason(buf: bytes, e: HttpError) {
    var lines := Lines(buf);
    if |buf| > 65536 then e == HeadTooLarge
    else if lines == [] || lines[0] == [] then e == BadRequestLine
    else if ParseRequestLine(lines[0]).Err? then e == ParseRequestLine(lines[0]).error
    else if exists any :: HoldsWrong(lines[1..], any) then HoldsWrong(lines[1..], e)
    else
      var headers := ParseHeaders(lines[1..], []);
      && headers.Ok?
      && if FramingOf(headers.value).Err? then e == FramingOf(headers.value).error
         else AsksForUpgrade(headers.value) && e == Upgrade
  }

  /** The first line that is wrong is wrong in this way. */
  ghost predicate HoldsWrong(lines: seq<bytes>, e: HttpError) {
    exists k :: FirstWrong(lines, 0, k, e)
  }

  lemma LinesAreRight(lines: seq<bytes>)
    ensures ParseHeaders(lines, []).Ok? <==> !exists e :: HoldsWrong(lines, e)
    ensures forall e :: ParseHeaders(lines, []) == Err(e) <==> HoldsWrong(lines, e)
  {
    forall e ensures ParseHeaders(lines, []) == Err(e) <==> HoldsWrong(lines, e) {
      HeadersErrors(lines, [], e);
    }
    hide HoldsWrong;
    hide ParseHeaders;
    if ParseHeaders(lines, []).Err? {
      assert HoldsWrong(lines, ParseHeaders(lines, []).error);
    }
  }

  lemma HeadErrors(buf: bytes, e: HttpError)
    ensures Parse(buf) == Err(e) <==> IsReason(buf, e)
  {
    hide HoldsWrong;
    hide Lines;
    hide ParseRequestLine;
    hide FramingOf;
    hide AsksForUpgrade;
    hide ParseHeaders;
    hide FindHeader;
    var lines := Lines(buf);
    if lines != [] {
      LinesAreRight(lines[1..]);
      var found := ParseHeaders(lines[1..], []);
      if found.Ok? {
        UpgradeByName(found.value);
      }
    }
  }
}
