/** The response head byte by byte, and the client's reading of any head, rule by rule. */
module ResponseRules {
  import opened Octets
  import opened Errors
  import opened Framing
  import opened Request
  import opened RequestGrammar
  import opened Response
  import opened Relay
  import Utf8

  // ----- the bytes that are written -----

  function HeaderText(hs: seq<Header>): bytes {
    if hs == [] then [] else hs[0].0 + ": " + hs[0].1 + "\r\n" + HeaderText(hs[1..])
  }

  lemma {:induction false} HeaderLinesAreText(hs: seq<Header>)
    ensures JoinLines(HeaderLines(hs)) == HeaderText(hs)
  {
    if hs != [] {
      HeaderLinesAreText(hs[1..]);
      var ls := HeaderLines(hs);
      assert ls[1..] == HeaderLines(hs[1..]);
      assert ls[0] + CRLF == hs[0].0 + ": " + hs[0].1 + "\r\n";
    }
  }

  lemma {:induction false} HeaderTextConcat(a: seq<Header>, b: seq<Header>)
    ensures HeaderText(a + b) == HeaderText(a) + HeaderText(b)
  {
    if a == [] {
      assert a + b == b;
    } else {
      assert (a + b)[1..] == a[1..] + b;
      HeaderTextConcat(a[1..], b);
      Assoc(a[0].0 + ": " + a[0].1 + "\r\n", HeaderText(a[1..]), HeaderText(b));
    }
  }

  /** The head on the wire: version, status and reason, the headers in order, the daemon's own two,
      an empty line. */
  lemma EncodedByText(head: ResponseHead, n: nat)
    ensures Encode(head, n)
            == "HTTP/1.1 " + Decimal(head.status) + " " + Sanitize(head.reason, "Unknown") + "\r\n"
               + HeaderText(head.headers)
               + "Content-Length: " + Decimal(n) + "\r\n" + "Connection: close\r\n" + "\r\n"
  {
    hide Decimal;
    hide Sanitize;
    var own, start := OwnFraming(n), StatusLine(head.status, head.reason);
    var hs := head.headers + own;
    var ls := EncodedLines(head, n);
    assert ls[1..] == HeaderLines(hs);
    HeaderLinesAreText(hs);
    HeaderTextConcat(head.headers, own);
    OwnText(n);
    assert start + CRLF == "HTTP/1.1 " + Decimal(head.status) + " " + Sanitize(head.reason, "Unknown") + "\r\n";
    var text := HeaderText(head.headers);
    hide HeaderText;
    var tail := "Content-Length: " + Decimal(n) + "\r\n" + "Connection: close\r\n";
    Assoc(start + CRLF, text, HeaderText(own));
    Assoc(start + CRLF + text, "Content-Length: " + Decimal(n) + "\r\n", "Connection: close\r\n");
    Assoc(start + CRLF + text, "Content-Length: " + Decimal(n), "\r\n");
    Assoc(start + CRLF + text, "Content-Length: ", Decimal(n));
  }

  lemma OwnText(n: nat)
    ensures HeaderText(OwnFraming(n)) == "Content-Length: " + Decimal(n) + "\r\n" + "Connection: close\r\n"
  {
    hide Decimal;
    var own := OwnFraming(n);
    assert own[1..][1..] == [];
    assert HeaderText(own[1..]) == "Connection" + ": " + "close" + "\r\n" + [];
    assert "Content-Length" + ": " + Decimal(n) + "\r\n" == "Content-Length: " + Decimal(n) + "\r\n";
  }

  // ----- the status line, as the client reads it -----

  /** A status line: one of two versions, a number of at most 16 bits, and possibly a reason. */
  ghost predicate IsStatusLine(line: string, version: string, code: string, status: nat, reason: string, bare: bool) {
    && version in {"HTTP/1.1", "HTTP/1.0"} && ' ' !in code && ParseUnsigned(code, 65535) == Some(status)
    && line == (if bare then version + " " + code else version + " " + code + " " + reason)
    && (bare ==> reason == "")
  }

  lemma VersionsHoldNoSpace(version: string)
    requires version in {"HTTP/1.1", "HTTP/1.0"}
    ensures ' ' !in version
  {
  }

  lemma StatusLineParsesBy(line: string, version: string, code: string, status: nat, reason: string, bare: bool)
    requires IsStatusLine(line, version, code, status, reason, bare)
    ensures ParseStatusLine(line) == Ok((status, reason))
  {
    hide ParseUnsigned;
    VersionsHoldNoSpace(version);
    var rest := if bare then code else code + " " + reason;
    assert line == version + [' '] + rest;
    FirstOfConcat(version, ' ', rest);
    assert line[..|version|] == version && line[|version| + 1..] == rest;
    if bare {
      assert FirstOf(code, ' ') == None;
    } else {
      assert rest == code + [' '] + reason;
      FirstOfConcat(code, ' ', reason);
      assert rest[..|code|] == code && rest[|code| + 1..] == reason;
    }
    hide FirstOf;
  }

  lemma StatusLineIsExact(line: string, status: nat, reason: string)
    ensures ParseStatusLine(line) == Ok((status, reason))
            <==> exists version, code, bare :: IsStatusLine(line, version, code, status, reason, bare)
  {
    hide ParseUnsigned;
    if ParseStatusLine(line) == Ok((status, reason)) {
      var i := FirstOf(line, ' ').value;
      var version, rest := line[..i], line[i + 1..];
      assert line == version + " " + rest;
      var second := FirstOf(rest, ' ');
      var code := if second.Some? then rest[..second.value] else rest;
      assert second.Some? ==> rest == code + " " + reason;
      assert IsStatusLine(line, version, code, status, reason, second.None?);
    }
    if version, code, bare :| IsStatusLine(line, version, code, status, reason, bare) {
      StatusLineParsesBy(line, version, code, status, reason, bare);
    }
  }

  /** The line is one of the versions, or starts with one and a space. */
  ghost predicate HasVersion(line: string, version: string) {
    version in {"HTTP/1.1", "HTTP/1.0"} && (line == version || version + " " <= line)
  }

  ghost predicate NamesVersion(line: string) {
    exists version :: HasVersion(line, version)
  }

  lemma VersionIsFirst(line: string, version: string)
    requires HasVersion(line, version)
    ensures var first := FirstOf(line, ' ');
            (if first.Some? then line[..first.value] else line) == version
  {
    VersionsHoldNoSpace(version);
    if line == version {
      assert FirstOf(line, ' ').None?;
    } else {
      var rest := line[|version| + 1..];
      assert line == version + " " + rest;
      assert line == version + [' '] + rest;
      FirstOfConcat(version, ' ', rest);
      assert line[..|version|] == version;
    }
  }

  lemma FirstIsVersion(line: string)
    ensures var first := FirstOf(line, ' ');
            var version := if first.Some? then line[..first.value] else line;
            version in {"HTTP/1.1", "HTTP/1.0"} ==> HasVersion(line, version)
  {
    var first := FirstOf(line, ' ');
    if first.Some? {
      assert line == line[..first.value] + " " + line[first.value + 1..];
    }
  }

  /** What else it says: the version is wrong, or the rest is. */
  lemma StatusLineErrors(line: string)
    requires ParseStatusLine(line).Err?
    ensures ParseStatusLine(line).error
            == Http(if NamesVersion(line) then BadHeader else BadVersion)
  {
    FirstIsVersion(line);
    if version :| HasVersion(line, version) {
      VersionIsFirst(line, version);
    }
    hide HasVersion;
    hide FirstOf;
    hide ParseUnsigned;
  }

  // ----- header lines -----

  /** Name and value stand around the first colon, trimmed. */
  lemma FieldIsExact(line: string, h: Header)
    ensures ParseField(line) == Some(h)
            <==> exists name, value :: line == name + ":" + value && ':' !in name && h == (Trim(name), Trim(value))
  {
    hide Trim;
    if ParseField(line) == Some(h) {
      var i := FirstOf(line, ':').value;
      assert line == line[..i] + ":" + line[i + 1..];
    }
    if name, value :| line == name + ":" + value && ':' !in name && h == (Trim(name), Trim(value)) {
      FirstOfConcat(name, ':', value);
      assert line == name + [':'] + value;
      assert line[..|name|] == name && line[|name| + 1..] == value;
    }
  }

  /** The lines before the first empty one, or all of them, are the headers. */
  ghost predicate AreFieldLines(lines: seq<string>, hs: seq<Header>) {
    && |hs| <= |lines| && (|hs| == |lines| || lines[|hs|] == [])
    && forall k :: 0 <= k < |hs| ==> lines[k] != [] && ParseField(lines[k]) == Some(hs[k])
  }

  lemma {:induction false} FieldsAreExact(lines: seq<string>, sofar: seq<Header>, hs: seq<Header>)
    ensures ParseFields(lines, sofar) == Ok(sofar + hs) <==> AreFieldLines(lines, hs)
    decreases |lines|
  {
    hide ParseField;
    if lines == [] || lines[0] == [] {
      assert sofar + hs == sofar ==> hs == [] by {
        if sofar + hs == sofar {
          assert |sofar + hs| == |sofar| + |hs|;
        }
      }
      assert sofar + [] == sofar;
    } else {
      var field, rest := ParseField(lines[0]), lines[1..];
      assert forall k :: 0 <= k < |rest| ==> rest[k] == lines[k + 1];
      if field.Some? {
        if hs != [] {
          var more := hs[1..];
          assert forall k :: 0 <= k < |more| ==> more[k] == hs[k + 1];
          FieldsAreExact(rest, sofar + [field.value], more);
          assert hs == [hs[0]] + more;
          Assoc(sofar, [field.value], more);
          if ParseFields(lines, sofar) == Ok(sofar + hs) {
            FieldsStart(lines, sofar, hs);
          }
        } else {
          FieldsGrow(rest, sofar + [field.value]);
          assert sofar + hs == sofar;
        }
      }
    }
  }

  lemma {:induction false} FieldsGrow(lines: seq<string>, sofar: seq<Header>)
    ensures ParseFields(lines, sofar).Ok? ==> sofar <= ParseFields(lines, sofar).value
    decreases |lines|
  {
    hide ParseField;
    if lines != [] && lines[0] != [] && ParseField(lines[0]).Some? {
      FieldsGrow(lines[1..], sofar + [ParseField(lines[0]).value]);
    }
  }

  lemma FieldsStart(lines: seq<string>, sofar: seq<Header>, hs: seq<Header>)
    requires lines != [] && lines[0] != [] && hs != []
    requires ParseFields(lines, sofar) == Ok(sofar + hs)
    ensures ParseField(lines[0]) == Some(hs[0])
  {
    hide ParseField;
    if ParseField(lines[0]).Some? {
      var h := ParseField(lines[0]).value;
      FieldsGrow(lines[1..], sofar + [h]);
      assert (sofar + [h])[|sofar|] == h && (sofar + hs)[|sofar|] == hs[0];
    }
  }

  // ----- lines -----

  /** The lines of a text: none holds a CRLF, and with CRLFs between them they are the text. */
  ghost predicate AreTextLines(text: string, lines: seq<string>) {
    && lines != [] && Joined(lines) == text
    && (forall k :: 0 <= k < |lines| ==> FirstCrlf(lines[k], 0).None?)
    && (forall k :: 0 <= k < |lines| - 1 ==> EndsClean(lines[k]))
  }

  /** A line does not end in a CR, which would be taken for the line's end if an LF followed. */
  ghost predicate EndsClean(line: string) {
    FirstCrlf(line + "\r\n", 0) == Some(|line|)
  }

  function Joined(lines: seq<string>): string
    requires lines != []
  {
    if |lines| == 1 then lines[0] else lines[0] + "\r\n" + Joined(lines[1..])
  }

  lemma {:induction false} SplitIsTextLines(text: string)
    ensures AreTextLines(text, SplitCrlf(text))
    decreases |text|
  {
    match FirstCrlf(text, 0)
    case None =>
    case Some(i) =>
      var line, rest := text[..i], text[i + 2..];
      SplitIsTextLines(rest);
      var lines := SplitCrlf(text);
      assert lines[1..] == SplitCrlf(rest);
      assert text == line + "\r\n" + rest;
      LineIsCut(text, i);
      assert forall k :: 0 < k < |lines| ==> lines[k] == SplitCrlf(rest)[k - 1];
  }

  lemma LineIsCut(text: string, i: nat)
    requires FirstCrlf(text, 0) == Some(i)
    ensures FirstCrlf(text[..i], 0).None? && EndsClean(text[..i])
  {
    var line := text[..i];
    var ended := line + "\r\n";
    forall j | 0 <= j < i ensures !CrlfAt(ended, j) && !CrlfAt(line, j) {
      assert CrlfAt(ended, j) ==> CrlfAt(text, j);
    }
    assert CrlfAt(ended, i);
  }

  // ----- the head as a whole -----

  /** A response head is read exactly when it is UTF-8 whose first line is a status line and whose
      next lines, up to the first empty one, are header lines. */
  lemma ResponseHeadIsExact(head: bytes, h: ResponseHead)
    ensures ParseStatusAndHeaders(head) == Ok(h)
            <==> exists text :: && head == Utf8.TextBytes(text)
                                && ParseStatusLine(SplitCrlf(text)[0]) == Ok((h.status, h.reason))
                                && AreFieldLines(SplitCrlf(text)[1..], h.headers)
  {
    hide ParseStatusLine;
    hide ParseFields;
    hide AreFieldLines;
    hide SplitCrlf;
    hide Utf8.Decode;
    hide Utf8.TextBytes;
    if ParseStatusAndHeaders(head) == Ok(h) {
      var text := Utf8.Decode(head).value;
      Utf8.DecodeIsExact(head, text);
      FieldsAreExact(SplitCrlf(text)[1..], [], h.headers);
      assert [] + h.headers == h.headers;
    }
    if text :| && head == Utf8.TextBytes(text)
               && ParseStatusLine(SplitCrlf(text)[0]) == Ok((h.status, h.reason))
               && AreFieldLines(SplitCrlf(text)[1..], h.headers) {
      Utf8.DecodeIsExact(head, text);
      FieldsAreExact(SplitCrlf(text)[1..], [], h.headers);
      assert [] + h.headers == h.headers;
    }
  }

  /** Anything but a bad version is a bad header to the client. */
  lemma ResponseHeadErrors(head: bytes)
    requires ParseStatusAndHeaders(head).Err?
    ensures ParseStatusAndHeaders(head).error in {Http(BadHeader), Http(BadVersion)}
    ensures ParseStatusAndHeaders(head).error == Http(BadVersion)
            <==> exists text :: head == Utf8.TextBytes(text) && !NamesVersion(SplitCrlf(text)[0])
  {
    hide SplitCrlf;
    hide Utf8.Decode;
    hide Utf8.TextBytes;
    hide NamesVersion;
    match Utf8.Decode(head)
    case None =>
      if text :| head == Utf8.TextBytes(text) {
        Utf8.DecodeIsExact(head, text);
      }
    case Some(text) =>
      Utf8.DecodeIsExact(head, text);
      var line := SplitCrlf(text)[0];
      if ParseStatusLine(line).Err? {
        StatusLineErrors(line);
      } else {
        OkHasVersion(line);
        FieldErrors(SplitCrlf(text)[1..], []);
      }
      hide ParseStatusLine;
      hide ParseFields;
      forall other | head == Utf8.TextBytes(other) ensures other == text {
        Utf8.DecodeIsExact(head, other);
      }
  }

  lemma OkHasVersion(line: string)
    requires ParseStatusLine(line).Ok?
    ensures NamesVersion(line)
  {
    hide ParseUnsigned;
    FirstIsVersion(line);
    hide HasVersion;
    hide FirstOf;
  }

  lemma {:induction false} FieldErrors(lines: seq<string>, sofar: seq<Header>)
    requires ParseFields(lines, sofar).Err?
    ensures ParseFields(lines, sofar) == Err(Http(BadHeader))
    decreases |lines|
  {
    hide ParseField;
    if ParseField(lines[0]).Some? {
      FieldErrors(lines[1..], sofar + [ParseField(lines[0]).value]);
    }
  }

  /** The client goes by the first length, an unsigned number of 64 bits. */
  lemma DeclaredLengthIsExact(headers: seq<Header>, n: nat)
    ensures DeclaredLength(headers) == Ok(n)
            <==> exists i :: 0 <= i < |headers| && IsFirstNamed(headers, i, "content-length")
                             && ParseUnsigned(Trim(headers[i].1), 0xFFFF_FFFF_FFFF_FFFF) == Some(n)
    ensures DeclaredLength(headers) == Err(Handshake(NoContentLength))
            <==> forall i :: 0 <= i < |headers| ==> !EqIgnoreCase(headers[i].0, "content-length")
    ensures DeclaredLength(headers).Ok?
            || DeclaredLength(headers) in {Err(Handshake(NoContentLength)), Err(Http(BadContentLength))}
  {
    hide IsFirstNamed;
    hide EqIgnoreCase;
    hide ParseUnsigned;
    hide Trim;
    FindHeaderIsExact(headers, "content-length");
    OneIsFirst(headers, "content-length");
    var found := FindHeader(headers, "content-length");
    if found.Some? {
      FoundIsFirst(headers, "content-length", found.value);
    } else {
      if i :| 0 <= i < |headers| && IsFirstNamed(headers, i, "content-length") {
        FoundIsFirst(headers, "content-length", headers[i].1);
      }
    }
    hide FindHeader;
  }
}
