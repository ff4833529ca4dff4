/** Exactly which texts are URLs to the parser, and what it reads from them. */
module UrlRules {
  import opened Octets
  import Urls

  ghost predicate HoldsNone(s: string, stops: string) {
    forall i :: 0 <= i < |s| ==> s[i] !in stops
  }

  function FragmentText(fragment: Option<string>): string {
    if fragment.Some? then "#" + fragment.value else ""
  }

  /** What follows the path. */
  ghost predicate EndsUrl(tail: string, query: Option<string>, fragment: Option<string>) {
    && tail == Urls.QueryText(query) + FragmentText(fragment)
    && (query.Some? ==> '#' !in query.value)
  }

  /** The text is the scheme, two slashes after a colon, the authority, the path as it was written, and
      perhaps a query and a fragment. */
  ghost predicate SpellsUrl(text: string, url: Urls.Url, raw: string, tail: string) {
    && text == url.scheme + "://" + (url.authority + (raw + tail))
    && ':' !in url.scheme && url.authority != [] && HoldsNone(url.authority, "/\\?#")
    && (raw != [] ==> raw[0] == '/' || raw[0] == '\\') && HoldsNone(raw, "?#")
    && EndsUrl(tail, url.query, url.fragment) && url.path == Urls.NormalizePath(raw)
  }

  lemma EndIsRead(tail: string, query: Option<string>, fragment: Option<string>)
    requires EndsUrl(tail, query, fragment)
    ensures Urls.QueryAndFragment(tail) == (query, fragment)
    ensures tail == [] || tail[0] in "?#"
  {
    if query.Some? {
      QueryIsRead(query.value, fragment);
    } else {
      hide Urls.Until;
      assert tail == FragmentText(fragment);
      assert fragment.Some? ==> tail[1..] == fragment.value;
    }
  }

  lemma QueryIsRead(q: string, fragment: Option<string>)
    requires '#' !in q
    ensures var tail := "?" + q + FragmentText(fragment);
            tail[0] == '?' && Urls.QueryAndFragment(tail) == (Some(q), fragment)
  {
    var f := FragmentText(fragment);
    var rest := q + f;
    Assoc("?", q, f);
    var tail := "?" + rest;
    assert tail[1..] == rest;
    Urls.UntilStops(q, "#", f);
    hide Urls.Until;
    assert rest[..|q|] == q;
    assert fragment.Some? ==> rest[|q| + 1..] == fragment.value;
  }

  lemma ReadIsEnd(tail: string)
    requires tail == [] || tail[0] in "?#"
    ensures var (query, fragment) := Urls.QueryAndFragment(tail); EndsUrl(tail, query, fragment)
  {
    if tail != [] {
      assert tail == [tail[0]] + tail[1..];
      if tail[0] == '#' {
        assert tail == "" + ("#" + tail[1..]);
      } else {
        ReadIsQuery(tail[1..]);
      }
    }
  }

  lemma ReadIsQuery(rest: string)
    ensures var (query, fragment) := Urls.QueryAndFragment("?" + rest); EndsUrl("?" + rest, query, fragment)
  {
    var q, tail := Urls.Until(rest, "#"), "?" + rest;
    CutIsClean(rest, "#");
    hide Urls.Until;
    assert tail[1..] == rest;
    assert '#' !in rest[..q];
    if q < |rest| {
      assert rest[q..] == "#" + rest[q + 1..];
      Assoc("?", rest[..q], "#" + rest[q + 1..]);
    } else {
      assert rest[..q] == rest && "?" + rest + "" == "?" + rest;
    }
  }

  /** A URL is read exactly from the texts that spell it. */
  lemma UrlIsExact(text: string, url: Urls.Url)
    ensures Urls.Parse(text) == Some(url) <==> exists raw, tail :: SpellsUrl(text, url, raw, tail)
  {
    if Urls.Parse(text) == Some(url) {
      var raw, tail := ReadIsSpelled(text);
    }
    if raw, tail :| SpellsUrl(text, url, raw, tail) {
      SpelledIsRead(text, url, raw, tail);
    }
  }

  lemma SpelledIsRead(text: string, url: Urls.Url, raw: string, tail: string)
    requires SpellsUrl(text, url, raw, tail)
    ensures Urls.Parse(text) == Some(url)
  {
    hide Urls.NormalizePath;
    hide Urls.Parse;
    hide Urls.Until;
    EndIsRead(tail, url.query, url.fragment);
    hide EndsUrl;
    hide Urls.QueryAndFragment;
    var more := raw + tail;
    var hier := url.authority + more;
    assert more == [] || more[0] in "/\\?#";
    Urls.SchemeParses(url.scheme, hier);
    Urls.UntilStops(url.authority, "/\\?#", more);
    Urls.UntilStops(raw, "?#", tail);
    assert hier[..|url.authority|] == url.authority && hier[|url.authority|..] == more;
    assert more[..|raw|] == raw && more[|raw|..] == tail;
  }

  lemma SchemeIsRead(text: string) returns (scheme: string, hier: string)
    requires Urls.Parse(text).Some?
    ensures text == scheme + "://" + hier && ':' !in scheme
    ensures Urls.Parse(text) == Urls.ParseHierarchy(scheme, hier)
  {
    hide Urls.ParseHierarchy;
    var i := FirstOf(text, ':').value;
    var rest := text[i + 1..];
    scheme, hier := text[..i], rest[2..];
    assert rest == "//" + hier;
    assert text == scheme + ":" + rest;
    assert "://" == ":" + "//";
  }

  lemma CutIsClean(s: string, stops: string)
    ensures var n := Urls.Until(s, stops);
            HoldsNone(s[..n], stops) && (s[n..] == [] || s[n..][0] in stops) && s == s[..n] + s[n..]
  {
  }

  lemma HierarchyIsRead(scheme: string, hier: string) returns (raw: string, tail: string)
    requires ':' !in scheme && Urls.ParseHierarchy(scheme, hier).Some?
    ensures SpellsUrl(scheme + "://" + hier, Urls.ParseHierarchy(scheme, hier).value, raw, tail)
  {
    var n := Urls.Until(hier, "/\\?#");
    var more := hier[n..];
    var p := Urls.Until(more, "?#");
    raw, tail := more[..p], more[p..];
    CutIsClean(hier, "/\\?#");
    CutIsClean(more, "?#");
    ReadIsEnd(tail);
    hide Urls.NormalizePath;
    hide EndsUrl;
    hide HoldsNone;
    hide Urls.QueryAndFragment;
    hide Urls.Until;
    if raw != [] {
      RawStarts(more);
    }
  }

  lemma RawStarts(more: string)
    requires more != [] && more[0] in "/\\?#" && Urls.Until(more, "?#") > 0
    ensures more[0] == '/' || more[0] == '\\'
  {
  }

  lemma ReadIsSpelled(text: string) returns (raw: string, tail: string)
    requires Urls.Parse(text).Some?
    ensures SpellsUrl(text, Urls.Parse(text).value, raw, tail)
  {
    hide Urls.Parse;
    hide Urls.ParseHierarchy;
    hide SpellsUrl;
    var scheme, hier := SchemeIsRead(text);
    raw, tail := HierarchyIsRead(scheme, hier);
  }
}
