/** The exact set of accepted request heads, and why a head cannot be read in two ways. */
module RequestGrammar {
  import opened Octets
  import opened Framing
  import opened Request

  // ----- what a head is made of -----

  /** A header line: optional whitespace is allowed around the value and nowhere else. */
  datatype Field = Field(name: string, pre: bytes, value: string, post: bytes)

  ghost predicate IsField(f: Field) {
    IsToken(f.name) && All(f.pre, IsOws) && All(f.post, IsOws)
    && All(f.value, IsFieldByte) && IsTrimmed(f.value, IsOws)
  }

  ghost predicate AreFields(fs: seq<Field>) {
    forall i :: 0 <= i < |fs| ==> IsField(fs[i])
  }

  function FieldLine(f: Field): bytes {
    f.name + ":" + (f.pre + f.value + f.post)
  }

  function FieldLines(fs: seq<Field>): (r: seq<bytes>)
    ensures |r| == |fs|
    ensures forall i :: 0 <= i < |fs| ==> r[i] == FieldLine(fs[i])
  {
    seq(|fs|, i requires 0 <= i < |fs| => FieldLine(fs[i]))
  }

  function Pairs(fs: seq<Field>): (r: seq<Header>)
    ensures |r| == |fs|
    ensures forall i :: 0 <= i < |fs| ==> r[i] == (fs[i].name, fs[i].value)
  {
    seq(|fs|, i requires 0 <= i < |fs| => (fs[i].name, fs[i].value))
  }

  function RequestLine(verb: string, target: string, version: Version): bytes {
    verb + " " + (target + " " + VersionText(version))
  }

  function JoinLines(ls: seq<bytes>): bytes {
    if ls == [] then [] else ls[0] + CRLF + JoinLines(ls[1..])
  }

  /** The bytes of a head: a request line, header lines, an empty line. */
  function HeadBytes(verb: string, target: string, version: Version, fs: seq<Field>): bytes {
    JoinLines([RequestLine(verb, target, version)] + FieldLines(fs)) + CRLF
  }

  ghost predicate IsTarget(s: string) {
    s != [] && All(s, IsPrintable)
  }

  // ----- lines of text that hold no CR or LF -----

  ghost predicate AreLines(ls: seq<bytes>) {
    forall i :: 0 <= i < |ls| ==> IsOneLine(ls[i])
  }

  ghost predicate NoneEmpty(ls: seq<bytes>) {
    forall i :: 0 <= i < |ls| ==> ls[i] != []
  }

  lemma {:induction false} JoinAppend(a: seq<bytes>, b: seq<bytes>)
    ensures JoinLines(a + b) == JoinLines(a) + JoinLines(b)
  {
    if a == [] {
      assert a + b == b;
    } else {
      assert (a + b)[1..] == a[1..] + b;
      JoinAppend(a[1..], b);
      assert a[0] + CRLF + (JoinLines(a[1..]) + JoinLines(b)) == a[0] + CRLF + JoinLines(a[1..]) + JoinLines(b);
    }
  }

  lemma JoinOne(line: bytes)
    ensures JoinLines([line]) == line + CRLF
  {
    assert [line][1..] == [];
    assert line + CRLF + [] == line + CRLF;
  }

  lemma LinesFirst(line: bytes, rest: bytes)
    requires IsOneLine(line)
    ensures Lines(line + CRLF + rest) == [line] + Lines(rest)
  {
    var s := line + CRLF + rest;
    assert At(s, 0, line) && CrlfAt(s, |line|);
    FirstCrlfAfterLine(s, 0, line);
    assert s[..|line|] == line && s[|line| + 2..] == rest;
  }

  lemma {:induction false} LinesOfJoin(ls: seq<bytes>)
    requires AreLines(ls)
    ensures Lines(JoinLines(ls)) == ls
  {
    if ls != [] {
      LinesFirst(ls[0], JoinLines(ls[1..]));
      LinesOfJoin(ls[1..]);
    }
  }

  lemma JoinFirst(line: bytes, rest: seq<bytes>)
    ensures JoinLines([line] + rest) == line + CRLF + JoinLines(rest)
  {
    assert ([line] + rest)[1..] == rest;
  }

  lemma FirstLine(buf: bytes) returns (line: bytes, rest: bytes)
    requires buf != [] && CrlfAt(buf, |buf| - 2)
    ensures Lines(buf) == [line] + Lines(rest) && buf == line + CRLF + rest
    ensures rest == [] || CrlfAt(rest, |rest| - 2)
  {
    var i := FirstCrlf(buf, 0).value;
    assert i != |buf| - 3;
    line, rest := buf[..i], buf[i + 2..];
    assert buf == line + CRLF + rest;
  }

  /** Text that ends in CRLF is the join of its lines. */
  lemma {:induction false} JoinOfLines(buf: bytes)
    requires buf == [] || CrlfAt(buf, |buf| - 2)
    ensures JoinLines(Lines(buf)) == buf
    decreases |buf|
  {
    if buf != [] {
      hide Lines;
      hide JoinLines;
      var line, rest := FirstLine(buf);
      JoinOfLines(rest);
      JoinFirst(line, Lines(rest));
    }
  }

  // ----- where such a text has its first empty line -----

  /** No CRLFCRLF begins in `s` at or after `lo` and before `hi`. */
  ghost predicate NoHeadEnd(s: bytes, lo: int, hi: int) {
    forall i :: lo <= i < hi ==> !HeadEndAt(s, i)
  }

  lemma NoHeadEndInLine(s: bytes, pos: nat, line: bytes)
    requires IsOneLine(line) && At(s, pos, line) && CrlfAt(s, pos + |line|)
    ensures NoHeadEnd(s, pos, pos + |line|) && !HeadEndAt(s, pos + |line| + 1)
    ensures HeadEndAt(s, pos + |line|) <==> CrlfAt(s, pos + |line| + 2)
  {
    forall i | pos <= i < pos + |line| ensures !HeadEndAt(s, i) {
      assert s[pos + (i - pos)] == line[i - pos];
    }
  }

  lemma {:induction false} NoHeadEndInLines(s: bytes, pos: nat, ls: seq<bytes>)
    requires ls != [] && AreLines(ls) && NoneEmpty(ls) && At(s, pos, JoinLines(ls))
    ensures |JoinLines(ls)| >= 3 && NoHeadEnd(s, pos, pos + |JoinLines(ls)| - 2)
    ensures CrlfAt(s, pos + |JoinLines(ls)| - 2) && !HeadEndAt(s, pos + |JoinLines(ls)| - 1)
    decreases |ls|
  {
    var n := |ls[0]|;
    AtConcat(s, pos, ls[0] + CRLF, JoinLines(ls[1..]));
    AtConcat(s, pos, ls[0], CRLF);
    AtCrlf(s, pos + n);
    NoHeadEndInLine(s, pos, ls[0]);
    if |ls| > 1 {
      var next := pos + n + 2;
      NoHeadEndInLines(s, next, ls[1..]);
      assert !CrlfAt(s, next) by {
        assert ls[1..][0] == ls[1];
        assert JoinLines(ls[1..])[0] == ls[1][0];
        assert s[next + 0] == JoinLines(ls[1..])[0];
      }
      assert |JoinLines(ls)| == n + 2 + |JoinLines(ls[1..])|;
      forall i | pos <= i < pos + |JoinLines(ls)| - 2 ensures !HeadEndAt(s, i) {
        assert i < pos + n || i == pos + n || i == pos + n + 1 || next <= i;
      }
    }
  }

  /** A head is cut exactly at its own end, whatever bytes follow it. */
  lemma HeadIsCutAtItsEnd(ls: seq<bytes>, tail: bytes)
    requires ls != [] && AreLines(ls) && NoneEmpty(ls)
    ensures FindHeadEnd(JoinLines(ls) + CRLF + tail) == Some(|JoinLines(ls)| + 2)
  {
    var s := JoinLines(ls) + CRLF + tail;
    assert At(s, 0, JoinLines(ls));
    NoHeadEndInLines(s, 0, ls);
    assert HeadEndAt(s, |JoinLines(ls)| - 2);
  }

  // ----- one line at a time -----

  lemma FieldLineParses(f: Field)
    requires IsField(f)
    ensures ParseHeaderLine(FieldLine(f)) == Ok((f.name, f.value))
    ensures FieldLine(f) != [] && !IsFolded(FieldLine(f))
  {
    hide FirstOf;
    hide TrimBy;
    var padded := f.pre + f.value + f.post;
    var line := FieldLine(f);
    assert ':' !in f.name by {
      assert forall i :: 0 <= i < |f.name| ==> IsTokenByte(f.name[i]);
    }
    FirstOfConcat(f.name, ':', padded);
    assert line[..|f.name|] == f.name && line[|f.name| + 1..] == padded;
    TrimIsUnique(padded, IsOws, f.pre, f.value, f.post);
    assert IsTokenByte(f.name[0]) && line[0] == f.name[0];
  }

  lemma FieldLineIsOneLine(f: Field)
    requires IsField(f)
    ensures IsOneLine(FieldLine(f))
  {
    assert IsOneLine(f.name) by { TokensAreOneLine(f.name); }
    assert IsOneLine(f.pre) by { assert forall i :: 0 <= i < |f.pre| ==> IsOws(f.pre[i]); }
    assert IsOneLine(f.value) by { assert forall i :: 0 <= i < |f.value| ==> IsFieldByte(f.value[i]); }
    assert IsOneLine(f.post) by { assert forall i :: 0 <= i < |f.post| ==> IsOws(f.post[i]); }
    OneLineConcat(f.pre, f.value);
    OneLineConcat(f.pre + f.value, f.post);
    OneLineConcat(f.name, ":");
    OneLineConcat(f.name + ":", f.pre + f.value + f.post);
  }

  lemma ParsedLineIsField(line: bytes) returns (f: Field)
    requires ParseHeaderLine(line).Ok?
    ensures IsField(f) && FieldLine(f) == line && ParseHeaderLine(line) == Ok((f.name, f.value))
  {
    var colon := FirstOf(line, ':').value;
    var padded := line[colon + 1..];
    var pre, post := TrimSplits(padded, IsOws);
    f := Field(line[..colon], pre, TrimBy(padded, IsOws), post);
    assert line == line[..colon] + ":" + padded;
  }

  lemma RequestLineParses(verb: string, target: string, version: Version)
    requires IsToken(verb) && IsTarget(target)
    ensures ParseRequestLine(RequestLine(verb, target, version)) == Ok((verb, target, version))
  {
    hide FirstOf;
    var line := RequestLine(verb, target, version);
    var text := VersionText(version);
    var rest := target + " " + text;
    assert ' ' !in verb by {
      assert forall i :: 0 <= i < |verb| ==> IsTokenByte(verb[i]);
    }
    assert ' ' !in target by {
      assert forall i :: 0 <= i < |target| ==> IsPrintable(target[i]);
    }
    FirstOfConcat(verb, ' ', rest);
    FirstOfConcat(target, ' ', text);
    assert line[..|verb|] == verb && line[|verb| + 1..] == rest;
    assert rest[..|target|] == target && rest[|target| + 1..] == text;
    assert ' ' !in text;
  }

  lemma RequestLineIsOneLine(verb: string, target: string, version: Version)
    requires IsToken(verb) && IsTarget(target)
    ensures IsOneLine(RequestLine(verb, target, version)) && RequestLine(verb, target, version) != []
  {
    TokensAreOneLine(verb);
    assert IsOneLine(target) by { assert forall i :: 0 <= i < |target| ==> IsPrintable(target[i]); }
    OneLineConcat(verb, " ");
    OneLineConcat(target, " ");
    OneLineConcat(target + " ", VersionText(version));
    OneLineConcat(verb + " ", target + " " + VersionText(version));
  }

  lemma ParsedRequestLine(line: bytes, verb: string, target: string, version: Version)
    requires ParseRequestLine(line) == Ok((verb, target, version))
    ensures IsToken(verb) && IsTarget(target) && line == RequestLine(verb, target, version)
  {
    hide FirstOf;
    hide AllOf;
    var i := FirstOf(line, ' ').value;
    var rest := line[i + 1..];
    var j := FirstOf(rest, ' ').value;
    assert line == line[..i] + " " + rest;
    assert rest == rest[..j] + " " + rest[j + 1..];
  }

  // ----- all header lines -----

  lemma ParseOneMore(line: bytes, rest: seq<bytes>, sofar: seq<Header>, h: Header)
    requires ParseHeaderLine(line) == Ok(h) && line != [] && !IsFolded(line) && |sofar| < MAX_HEADERS
    ensures ParseHeaders([line] + rest, sofar) == ParseHeaders(rest, sofar + [h])
  {
    hide ParseHeaderLine;
    assert ([line] + rest)[1..] == rest;
  }

  lemma FirstField(fs: seq<Field>)
    requires fs != []
    ensures FieldLines(fs) == [FieldLine(fs[0])] + FieldLines(fs[1..])
    ensures Pairs(fs) == [(fs[0].name, fs[0].value)] + Pairs(fs[1..])
  {
    hide FieldLine;
  }

  lemma {:induction false} FieldsParse(fs: seq<Field>, sofar: seq<Header>)
    requires AreFields(fs) && |sofar| + |fs| <= MAX_HEADERS
    ensures ParseHeaders(FieldLines(fs) + [[]], sofar) == Ok(sofar + Pairs(fs))
    decreases |fs|
  {
    hide IsField;
    hide ParseHeaderLine;
    hide FieldLine;
    if fs == [] {
      assert FieldLines(fs) + [[]] == [[]] && sofar + Pairs(fs) == sofar;
    } else {
      hide ParseHeaders;
      hide FieldLines;
      hide Pairs;
      var rest, h := fs[1..], (fs[0].name, fs[0].value);
      FieldLineParses(fs[0]);
      FirstField(fs);
      Assoc([FieldLine(fs[0])], FieldLines(rest), [[]]);
      ParseOneMore(FieldLine(fs[0]), FieldLines(rest) + [[]], sofar, h);
      FieldsParse(rest, sofar + [h]);
      Assoc(sofar, [h], Pairs(rest));
    }
  }

  /** The lines that were parsed are fields, and an empty line or the end follows them. */
  lemma {:induction false} ParsedHeadersAreFields(lines: seq<bytes>, sofar: seq<Header>) returns (fs: seq<Field>)
    requires ParseHeaders(lines, sofar).Ok? && |sofar| <= MAX_HEADERS
    ensures AreFields(fs) && |fs| <= |lines| && |sofar| + |fs| <= MAX_HEADERS
    ensures lines[..|fs|] == FieldLines(fs) && (|fs| < |lines| ==> lines[|fs|] == [])
    ensures ParseHeaders(lines, sofar) == Ok(sofar + Pairs(fs))
    decreases |lines|
  {
    hide ParseHeaderLine;
    hide FieldLine;
    hide IsField;
    if lines == [] || lines[0] == [] {
      fs := [];
      assert sofar + Pairs(fs) == sofar;
    } else {
      var f := ParsedLineIsField(lines[0]);
      var h := (f.name, f.value);
      assert |sofar| < MAX_HEADERS && ParseHeaders(lines, sofar) == ParseHeaders(lines[1..], sofar + [h]);
      hide ParseHeaders;
      var rest := ParsedHeadersAreFields(lines[1..], sofar + [h]);
      fs := [f] + rest;
      assert forall i :: 0 < i < |fs| ==> lines[i] == lines[1..][..|rest|][i - 1];
      assert lines[..|fs|] == FieldLines(fs);
      assert sofar + [h] + Pairs(rest) == sofar + Pairs(fs);
    }
  }

  // ----- the exact grammar -----

  /** `buf` spells `h`: the declarative reading of a request head. */
  ghost predicate Spells(buf: bytes, h: RequestHead, fs: seq<Field>) {
    && IsToken(h.verb) && IsTarget(h.target)
    && AreFields(fs) && |fs| <= MAX_HEADERS && h.headers == Pairs(fs)
    && FramingOf(h.headers) == Ok(h.framing) && FindHeader(h.headers, UPGRADE).None?
    && buf == HeadBytes(h.verb, h.target, h.version, fs)
    && |buf| <= MAX_HEAD_LEN
  }

  lemma HeadLines(verb: string, target: string, version: Version, fs: seq<Field>)
    requires IsToken(verb) && IsTarget(target) && AreFields(fs)
    ensures var ls := [RequestLine(verb, target, version)] + FieldLines(fs);
            AreLines(ls) && NoneEmpty(ls) && JoinLines(ls + [[]]) == HeadBytes(verb, target, version, fs)
  {
    hide RequestLine;
    hide FieldLine;
    var ls := [RequestLine(verb, target, version)] + FieldLines(fs);
    RequestLineIsOneLine(verb, target, version);
    forall i | 0 <= i < |ls| ensures IsOneLine(ls[i]) && ls[i] != [] {
      if i > 0 {
        assert ls[i] == FieldLine(fs[i - 1]);
        FieldLineParses(fs[i - 1]);
        FieldLineIsOneLine(fs[i - 1]);
      }
    }
    JoinAppend(ls, [[]]);
    EmptyLine();
  }

  lemma EmptyLine()
    ensures JoinLines([[]]) == CRLF
  {
    assert JoinLines([[]][1..]) == [];
  }

  lemma SpelledHeadParses(buf: bytes, h: RequestHead, fs: seq<Field>)
    requires Spells(buf, h, fs)
    ensures Parse(buf) == Ok(h) && FindHeadEnd(buf) == Some(|buf|)
  {
    hide RequestLine;
    hide FieldLines;
    hide JoinLines;
    hide ParseHeaders;
    hide ParseRequestLine;
    var ls := [RequestLine(h.verb, h.target, h.version)] + FieldLines(fs);
    HeadLines(h.verb, h.target, h.version, fs);
    assert AreLines(ls + [[]]);
    LinesOfJoin(ls + [[]]);
    RequestLineParses(h.verb, h.target, h.version);
    assert (ls + [[]])[1..] == FieldLines(fs) + [[]];
    FieldsParse(fs, []);
    assert [] + Pairs(fs) == Pairs(fs);
    HeadIsCutAtItsEnd(ls, []);
    assert JoinLines(ls) + CRLF + [] == buf;
  }

  /** A parsed head is spelled by its own bytes, to the last one. */
  lemma ParsedHeadIsSpelled(buf: bytes, h: RequestHead) returns (fs: seq<Field>)
    requires FindHeadEnd(buf) == Some(|buf|) && Parse(buf) == Ok(h)
    ensures Spells(buf, h, fs)
  {
    hide RequestLine;
    hide FieldLines;
    hide JoinLines;
    hide ParseHeaders;
    hide ParseRequestLine;
    hide IsField;
    hide FramingOf;
    hide FindHeader;
    hide Lines;
    var lines := Lines(buf);
    ParsedRequestLine(lines[0], h.verb, h.target, h.version);
    fs := ParsedHeadersAreFields(lines[1..], []);
    assert [] + Pairs(fs) == Pairs(fs);
    HeadLines(h.verb, h.target, h.version, fs);
    var ls := [RequestLine(h.verb, h.target, h.version)] + FieldLines(fs);
    assert lines[..|ls|] == ls by {
      assert lines == [lines[0]] + lines[1..];
    }
    CutAtFirstEmptyLine(buf, ls);
  }

  /** If text cut at its first CRLFCRLF begins with non-empty lines up to an empty one,
      there is nothing after that empty line. */
  lemma CutAtFirstEmptyLine(buf: bytes, ls: seq<bytes>)
    requires FindHeadEnd(buf) == Some(|buf|)
    requires ls != [] && AreLines(ls) && NoneEmpty(ls)
    requires |ls| <= |Lines(buf)| && Lines(buf)[..|ls|] == ls
    requires |ls| < |Lines(buf)| ==> Lines(buf)[|ls|] == []
    ensures buf == JoinLines(ls) + CRLF
  {
    hide Lines;
    hide JoinLines;
    hide FindHeadEnd;
    var lines, k := Lines(buf), |ls|;
    CutEndsInCrlf(buf);
    JoinOfLines(buf);
    if k < |lines| {
      var more := lines[k + 1..];
      assert lines == ls + ([[]] + more);
      JoinAroundEmpty(ls, more);
      HeadIsCutAtItsEnd(ls, JoinLines(more));
      assert JoinLines(more) == [];
    } else {
      assert lines == ls;
      LinesAloneHaveNoHeadEnd(buf, ls);
    }
  }

  lemma JoinAroundEmpty(ls: seq<bytes>, more: seq<bytes>)
    ensures JoinLines(ls + ([[]] + more)) == JoinLines(ls) + CRLF + JoinLines(more)
  {
    hide JoinLines;
    JoinAppend(ls, [[]] + more);
    JoinFirst([], more);
    var empty: bytes := [];
    assert JoinLines(ls) + (empty + CRLF + JoinLines(more)) == JoinLines(ls) + CRLF + JoinLines(more);
  }

  lemma CutEndsInCrlf(buf: bytes)
    requires FindHeadEnd(buf) == Some(|buf|)
    ensures CrlfAt(buf, |buf| - 2)
  {
    assert HeadEndAt(buf, |buf| - 4);
  }

  lemma LinesAloneHaveNoHeadEnd(buf: bytes, ls: seq<bytes>)
    requires ls != [] && AreLines(ls) && NoneEmpty(ls) && buf == JoinLines(ls)
    ensures FindHeadEnd(buf) != Some(|buf|)
  {
    NoHeadEndInLines(buf, 0, ls);
  }

  /** A head, cut at its first CRLFCRLF, is accepted as `h` exactly when it spells `h`. */
  lemma AcceptedHeadsAreExact(buf: bytes, h: RequestHead)
    requires FindHeadEnd(buf) == Some(|buf|)
    ensures Parse(buf) == Ok(h) <==> exists fs :: Spells(buf, h, fs)
  {
    if Parse(buf) == Ok(h) {
      var fs := ParsedHeadIsSpelled(buf, h);
    }
    if fs :| Spells(buf, h, fs) {
      SpelledHeadParses(buf, h, fs);
    }
  }

  // ----- no second reading -----

  /** The reading of section 2.2 of RFC 9112 that ends a line at a bare LF and ignores a CR
      before it. */
  function LenientLines(buf: bytes): seq<bytes> {
    if buf == [] then []
    else
      match FirstOf(buf, '\n')
      case None => [buf]
      case Some(i) =>
        [if i > 0 && buf[i - 1] == '\r' then buf[..i - 1] else buf[..i]] + LenientLines(buf[i + 1..])
  }

  lemma LenientFirst(line: bytes, rest: bytes)
    requires IsOneLine(line)
    ensures LenientLines(line + CRLF + rest) == [line] + LenientLines(rest)
  {
    var s := line + CRLF + rest;
    assert '\n' !in line + "\r" by {
      assert forall i :: 0 <= i < |line| ==> !IsLineBreak(line[i]);
    }
    FirstOfConcat(line + "\r", '\n', rest);
    assert s == line + "\r" + "\n" + rest;
    hide FirstOf;
    assert s[..|line|] == line && s[|line| + 2..] == rest;
  }

  lemma {:induction false} LenientLinesOfJoin(ls: seq<bytes>)
    requires AreLines(ls)
    ensures LenientLines(JoinLines(ls)) == ls
  {
    if ls != [] {
      LenientFirst(ls[0], JoinLines(ls[1..]));
      LenientLinesOfJoin(ls[1..]);
    }
  }

  /** Every CR is followed by LF and every LF follows a CR. */
  ghost predicate BreaksArePaired(s: bytes) {
    forall i :: 0 <= i < |s| ==> (s[i] == '\r' ==> CrlfAt(s, i)) && (s[i] == '\n' ==> CrlfAt(s, i - 1))
  }

  lemma {:induction false} BreaksInJoin(ls: seq<bytes>)
    requires AreLines(ls)
    ensures BreaksArePaired(JoinLines(ls))
  {
    if ls != [] {
      var s, n, rest := JoinLines(ls), |ls[0]|, JoinLines(ls[1..]);
      BreaksInJoin(ls[1..]);
      assert CrlfAt(s, n);
      forall i | 0 <= i < |s|
        ensures (s[i] == '\r' ==> CrlfAt(s, i)) && (s[i] == '\n' ==> CrlfAt(s, i - 1))
      {
        if i < n {
          assert s[i] == ls[0][i];
        } else if i >= n + 2 {
          assert s[i] == rest[i - n - 2];
          assert CrlfAt(rest, i - n - 2) ==> CrlfAt(s, i);
          assert CrlfAt(rest, i - n - 3) ==> CrlfAt(s, i - 1);
        }
      }
    }
  }

  /** The canonical spelling of parsed headers. */
  function BareFields(hs: seq<Header>): (r: seq<Field>)
    ensures |r| == |hs|
    ensures forall i :: 0 <= i < |hs| ==> r[i] == Field(hs[i].0, [], hs[i].1, [])
  {
    seq(|hs|, i requires 0 <= i < |hs| => Field(hs[i].0, [], hs[i].1, []))
  }

  function Render(h: RequestHead): bytes {
    HeadBytes(h.verb, h.target, h.version, BareFields(h.headers))
  }

  lemma {:induction false} ShorterLines(a: seq<bytes>, b: seq<bytes>)
    requires |a| == |b| && forall i :: 0 <= i < |a| ==> |a[i]| <= |b[i]|
    ensures |JoinLines(a)| <= |JoinLines(b)|
  {
    if a != [] {
      ShorterLines(a[1..], b[1..]);
    }
  }

  lemma RenderIsShorter(buf: bytes, h: RequestHead, fs: seq<Field>)
    requires Spells(buf, h, fs)
    ensures |Render(h)| <= |buf|
  {
    hide RequestLine;
    var bare := BareFields(h.headers);
    var a := [RequestLine(h.verb, h.target, h.version)] + FieldLines(bare);
    var b := [RequestLine(h.verb, h.target, h.version)] + FieldLines(fs);
    forall i | 0 <= i < |a| ensures |a[i]| <= |b[i]| {
      if i > 0 {
        assert a[i] == FieldLine(bare[i - 1]) && b[i] == FieldLine(fs[i - 1]);
      }
    }
    ShorterLines(a, b);
  }

  /** An accepted head has one reading: parsing consumed every byte, rendering it without
      optional whitespace and parsing again gives the same head, every CR and LF belongs to
      a CRLF, and the lenient reading sees the same lines. */
  lemma AcceptedHeadsAreUnambiguous(buf: bytes, h: RequestHead)
    requires FindHeadEnd(buf) == Some(|buf|) && Parse(buf) == Ok(h)
    ensures Parse(Render(h)) == Ok(h) && FindHeadEnd(Render(h)) == Some(|Render(h)|)
    ensures |Lines(buf)| == |h.headers| + 2 && JoinLines(Lines(buf)) == buf
    ensures BreaksArePaired(buf)
    ensures LenientLines(buf) == Lines(buf)
  {
    hide RequestLine;
    hide FieldLines;
    hide JoinLines;
    hide Parse;
    hide Lines;
    hide FindHeadEnd;
    var fs := ParsedHeadIsSpelled(buf, h);
    var ls := [RequestLine(h.verb, h.target, h.version)] + FieldLines(fs) + [[]];
    HeadLines(h.verb, h.target, h.version, fs);
    LinesOfJoin(ls);
    LenientLinesOfJoin(ls);
    BreaksInJoin(ls);
    RenderIsShorter(buf, h, fs);
    assert h.headers == Pairs(BareFields(h.headers));
    assert AreFields(BareFields(h.headers));
    assert Spells(Render(h), h, BareFields(h.headers));
    SpelledHeadParses(Render(h), h, BareFields(h.headers));
  }
}
