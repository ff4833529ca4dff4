/** What an endpoint may reach: resolving a request, and the headers it carries. */
module Grants {
  import opened Octets
  import opened Errors
  import opened Framing
  import opened Target
  import opened Containment
  import opened Meaning
  import opened Climbing
  import opened Methods

  type Url = Urls.Url

  datatype Scope = Exact | Prefix

  datatype FixedRequest = FixedRequest(verb: string, target: string)

  datatype HeaderPolicy = NoHeaders | AllExceptDenied | Allowed(names: set<string>)

  datatype Grant = Grant(
    base: Url, scope: Scope, methods: MethodSet, injections: seq<Header>, policy: HeaderPolicy,
    fixed: Option<FixedRequest>, allowQuery: bool, allowEncodedSeparators: bool,
    maxRequestBody: nat, maxResponseBody: nat)

  const DEFAULT_MAX_BODY: nat := 8 * 1024 * 1024

  // ----- building a grant -----

  function NewGrant(text: string): Result<Grant, GrantError> {
    match Urls.Parse(text)
    case None => Err(BaseUri)
    case Some(base) =>
      if base.scheme != "http" && base.scheme != "https" then Err(BaseUri)
      else if '@' in base.authority then Err(BaseUri)
      else if base.query.Some? || base.fragment.Some? then Err(BaseUri)
      else Ok(Grant(base, ScopeOf(base.path), SAFE_DEFAULT, [], AllExceptDenied, None, true, false,
                    DEFAULT_MAX_BODY, DEFAULT_MAX_BODY))
  }

  predicate EndsInSlash(path: string) {
    path != [] && path[|path| - 1] == '/'
  }

  function ScopeOf(path: string): Scope {
    if EndsInSlash(path) then Prefix else Exact
  }

  /** Pinning a request also narrows the methods to the pinned one. */
  function WithFixedRequest(g: Grant, fixed: FixedRequest): Grant {
    match Canonicalize(fixed.verb)
    case None => g.(fixed := Some(fixed))
    case Some(name) =>
      match ParseMethods(name)
      case Err(_) => g.(fixed := Some(fixed))
      case Ok(only) => g.(methods := only, fixed := Some(fixed))
  }

  /** What every grant has: a base that the parser leaves alone. */
  ghost predicate IsGrant(g: Grant) {
    && g.base.scheme in {"http", "https"}
    && g.base.authority != [] && (forall i :: 0 <= i < |g.base.authority| ==> g.base.authority[i] !in "/\\?#")
    && Urls.IsNormalPath(g.base.path) && '?' !in g.base.path && '#' !in g.base.path
    && g.base.query.None? && g.base.fragment.None?
    && g.scope == ScopeOf(g.base.path)
  }

  /** A grant can only be built on a normalized base, and pinning keeps it so. */
  lemma GrantsAreNormalized(text: string)
    requires NewGrant(text).Ok?
    ensures IsGrant(NewGrant(text).value)
  {
    hide Urls.Parse;
    hide Urls.IsNormalPath;
    ParsedBaseIsNormal(text);
  }

  lemma ParsedBaseIsNormal(text: string)
    requires Urls.Parse(text).Some?
    ensures var base := Urls.Parse(text).value;
            && base.authority != [] && (forall i :: 0 <= i < |base.authority| ==> base.authority[i] !in "/\\?#")
            && Urls.IsNormalPath(base.path) && '?' !in base.path && '#' !in base.path
  {
    hide Urls.NormalizePath;
    hide Urls.IsNormalPath;
    hide Urls.QueryAndFragment;
    hide Urls.Until;
    var i := FirstOf(text, ':').value;
    var hier := text[i + 1..][2..];
    var tail := hier[Urls.Until(hier, "/\\?#")..];
    var raw := tail[..Urls.Until(tail, "?#")];
    assert '?' !in raw && '#' !in raw;
    Urls.NormalizedPathIsNormal(raw);
  }

  lemma PinningKeepsTheGrant(g: Grant, fixed: FixedRequest)
    requires IsGrant(g)
    ensures IsGrant(WithFixedRequest(g, fixed))
  {
    hide Urls.IsNormalPath;
  }

  // ----- resolving -----

  /** Join a checked target onto the base as text, parse it once, and check the result. */
  function Join(g: Grant, t: NormalizedTarget): Result<Url, Denied> {
    match Urls.Parse(Urls.UrlText(g.base.scheme, g.base.authority, g.base.path + t.path, t.query))
    case None => Err(Escape)
    case Some(url) =>
      if url.scheme != g.base.scheme || url.authority != g.base.authority || !(g.base.path <= url.path)
      then Err(Escape)
      else Ok(url)
  }

  method JoinOnto(g: Grant, t: NormalizedTarget) returns (r: Result<Url, Denied>)
    ensures r == Join(g, t)
  {
    hide Urls.Parse;
    var assembled := g.base.scheme;
    assembled := assembled + "://";
    assembled := assembled + g.base.authority;
    assembled := assembled + g.base.path;
    assembled := assembled + t.path;
    if t.query.Some? {
      assembled := assembled + "?";
      assembled := assembled + t.query.value;
    }
    ghost var start, query := g.base.scheme + "://", Urls.QueryText(t.query);
    assert assembled == start + g.base.authority + (g.base.path + t.path) + query;
    Assoc(start + g.base.authority, g.base.path + t.path, query);
    Assoc(start, g.base.authority, g.base.path + t.path + query);
    var parsed := Urls.Parse(assembled);
    if parsed.None? {
      return Err(Escape);
    }
    var url := parsed.value;
    if url.scheme != g.base.scheme || url.authority != g.base.authority || !(g.base.path <= url.path) {
      return Err(Escape);
    }
    return Ok(url);
  }

  function Asked(g: Grant, verb: string, target: string): (string, string) {
    match g.fixed
    case Some(fixed) => (fixed.verb, fixed.target)
    case None => (verb, target)
  }

  function Resolve(g: Grant, verb: string, target: string): Result<(string, Url), Denied> {
    var (askedVerb, askedTarget) := Asked(g, verb, target);
    match Canonicalize(askedVerb)
    case None => Err(Denied.Method(Sanitize(askedVerb, "<empty>")))
    case Some(name) =>
      if name !in g.methods then Err(Denied.Method(name))
      else
        match Normalize(askedTarget, g.allowEncodedSeparators)
        case Err(e) => Err(Denied.Target(e))
        case Ok(t) =>
          if t.query.Some? && !g.allowQuery then Err(Denied.Target(QueryNotAllowed))
          else if g.scope == Exact && t.path != [] then Err(ExactResource)
          else match Join(g, t)
               case Err(e) => Err(e)
               case Ok(url) => Ok((name, url))
  }

  // ----- escape is unreachable -----

  lemma JoinedPathIsNormal(base: string, path: string)
    requires Urls.IsNormalPath(base) && (path == [] || EndsInSlash(base))
    requires Urls.NoDotLike(SplitOn(path, '/')) && '\\' !in path
    ensures Urls.IsNormalPath(base + path)
  {
    hide Urls.IsDotLike;
    if path == [] {
      assert base + path == base;
    } else {
      SplitAtSlash(base, path);
      var pieces, n := SplitOn(base + path, '/'), |SplitOn(base, '/')| - 1;
      forall k | 0 <= k < |pieces| ensures !Urls.IsDotLike(pieces[k]) {
        if k < n {
          assert pieces[k] == SplitOn(base, '/')[k];
        } else {
          assert pieces[k] == SplitOn(path, '/')[k - n];
        }
      }
    }
  }

  /** What the parser makes of the base path followed by a checked target's. */
  function JoinedPath(g: Grant, path: string): string {
    Urls.NormalizePath(g.base.path + path)
  }

  /** Joining a checked target onto a grant refuses exactly when the assembled path, as the
      parser normalizes it, no longer starts with the base path; nothing else can go wrong. */
  lemma JoinIsExact(g: Grant, target: string, allow: bool)
    requires IsGrant(g) && Normalize(target, allow).Ok?
    ensures var t := Normalize(target, allow).value;
            var path := JoinedPath(g, t.path);
            Join(g, t) == if g.base.path <= path
                          then Ok(Urls.Url(g.base.scheme, g.base.authority, path, t.query, None)) else Err(Escape)
  {
    var t := Normalize(target, allow).value;
    TargetHasNoFragment(target, allow);
    hide Urls.Parse;
    hide Urls.UrlText;
    hide Urls.NormalizePath;
    hide Normalize;
    Urls.UrlTextParses(g.base.scheme, g.base.authority, g.base.path + t.path, t.query);
  }

  /** A checked target never makes the join refuse, unless encoded separators are on and it
      holds a backslash: the result keeps scheme and authority, and its path is the base path
      followed by the target's. */
  lemma EscapeIsUnreachable(g: Grant, target: string, allow: bool)
    requires IsGrant(g) && Normalize(target, allow).Ok?
    requires allow ==> '\\' !in Normalize(target, allow).value.path
    requires g.scope == Exact ==> Normalize(target, allow).value.path == []
    ensures var t := Normalize(target, allow).value;
            Join(g, t) == Ok(Urls.Url(g.base.scheme, g.base.authority, g.base.path + t.path, t.query, None))
  {
    hide Join;
    hide Normalize;
    var t := Normalize(target, allow).value;
    AcceptedPathIsChecked(target, allow);
    Urls.CheckedSegmentsAreNormal(t.path, allow);
    if !allow {
      Urls.GoodPathHasNoBackslash(t.path);
    }
    JoinIsExact(g, target, allow);
    JoinedPathIsNormal(g.base.path, t.path);
    Urls.NormalPathIsFixed(g.base.path + t.path);
  }

  /** With encoded separators on, the check on the assembled URL is what stops `/..\x`. */
  lemma BackslashIsStoppedByTheJoin(g: Grant)
    requires IsGrant(g) && g.base.path == "/a/"
    ensures Normalize("/..\\x", true) == Ok(NormalizedTarget("..\\x", None))
    ensures Join(g, NormalizedTarget("..\\x", None)) == Err(Escape)
  {
    hide Join;
    hide IsGrant;
    hide Normalize;
    hide Urls.NormalizePath;
    BackslashIsAccepted();
    JoinIsExact(g, "/..\\x", true);
    Urls.BackslashMakesDots();
    assert g.base.path + "..\\x" == "/a/..\\x";
    assert JoinedPath(g, "..\\x") == "/x";
    assert !("/a/" <= "/x");
  }

  lemma TargetHasNoFragment(target: string, allow: bool)
    requires Normalize(target, allow).Ok?
    ensures var t := Normalize(target, allow).value;
            '?' !in t.path && '#' !in t.path && (t.query.Some? ==> '#' !in t.query.value)
  {
    NormalizeIsLossless(target, allow);
    var t := Normalize(target, allow).value;
    hide Normalize;
    NormalizeIsExact(target, allow);
    assert '#' !in Reassemble(t);
    forall k | 0 <= k < |t.path| ensures t.path[k] != '#' {
      assert Reassemble(t)[k + 1] == t.path[k];
    }
    if t.query.Some? {
      var n := |t.path| + 2;
      forall k | 0 <= k < |t.query.value| ensures t.query.value[k] != '#' {
        assert Reassemble(t)[k + n] == t.query.value[k];
      }
    }
  }

  /** The part of a resolved URL that the target named. */
  function NamedPath(g: Grant, verb: string, target: string): string
    requires Resolve(g, verb, target).Ok?
  {
    Normalize(Asked(g, verb, target).1, g.allowEncodedSeparators).value.path
  }

  lemma ResolvedUrl(g: Grant, verb: string, target: string)
    requires IsGrant(g) && !g.allowEncodedSeparators && Resolve(g, verb, target).Ok?
    ensures var url, named := Resolve(g, verb, target).value.1, NamedPath(g, verb, target);
            && url.scheme == g.base.scheme && url.authority == g.base.authority
            && url.path == g.base.path + named && url.fragment.None?
            && GoodPath(named) && (named == [] || EndsInSlash(g.base.path))
  {
    hide Normalize;
    hide Join;
    hide Urls.IsNormalPath;
    var askedTarget := Asked(g, verb, target).1;
    EscapeIsUnreachable(g, askedTarget, false);
    AcceptedPathIsGood(askedTarget);
  }

  /** Same scheme and authority; the exact path, or the segments of the prefix extended at
      their boundary. */
  ghost predicate IsBeneath(g: Grant, url: Url, named: string) {
    var base := SplitOn(g.base.path, '/');
    && url.scheme == g.base.scheme && url.authority == g.base.authority
    && (g.scope == Exact ==> url.path == g.base.path)
    && (g.scope == Prefix ==> SplitOn(url.path, '/') == base[..|base| - 1] + SplitOn(named, '/'))
  }

  /** Whatever resolves keeps scheme and authority and lies beneath the base. */
  lemma ResolvedIsBeneathTheBase(g: Grant, verb: string, target: string)
    requires IsGrant(g) && !g.allowEncodedSeparators && Resolve(g, verb, target).Ok?
    ensures IsBeneath(g, Resolve(g, verb, target).value.1, NamedPath(g, verb, target))
  {
    ResolvedUrl(g, verb, target);
    hide Resolve;
    hide SplitOn;
    hide NamedPath;
    hide GoodPath;
    hide Urls.IsNormalPath;
    var named := NamedPath(g, verb, target);
    if g.scope == Exact {
      assert g.base.path + named == g.base.path;
    } else {
      SplitAtSlash(g.base.path, named);
    }
  }

  /** And it lies there for every origin: removing dot segments before or after decoding
      changes nothing, and the decoded path begins with the decoded base. */
  lemma ResolvedMeansTheSameToEveryOrigin(g: Grant, verb: string, target: string)
    requires IsGrant(g) && !g.allowEncodedSeparators && Resolve(g, verb, target).Ok?
    requires CleanBase(g.base.path)
    ensures var path := Resolve(g, verb, target).value.1.path;
            && WellEscaped(path) && RemoveDotSegments(path) == path
            && Decoded(RemoveDotSegments(path)) == RemoveDotSegments(Decoded(path)) == Decoded(path)
            && Decoded(g.base.path) <= Decoded(path)
  {
    ResolvedUrl(g, verb, target);
    hide Resolve;
    hide NamedPath;
    hide CleanBase;
    hide Decoded;
    hide RemoveDotSegments;
    hide IsGrant;
    OrderOfDecodingIsIrrelevant(g.base.path, NamedPath(g, verb, target));
  }

  /** The assembled path still starts with the base path. */
  predicate JoinStaysBeneath(g: Grant, target: string) {
    var path := PathOf(target);
    path != [] && g.base.path <= JoinedPath(g, path[1..])
  }

  /** What every resolved path is: the joined one, which is normal, starts with the base path, goes
      beyond it only if that ends in a slash, and is well escaped if the base is. */
  lemma ResolvedPathIsJoined(g: Grant, verb: string, target: string)
    requires IsGrant(g) && Resolve(g, verb, target).Ok?
    ensures var path, named := Resolve(g, verb, target).value.1.path, NamedPath(g, verb, target);
            && path == JoinedPath(g, named) && g.base.path <= path && Urls.IsNormalPath(path)
            && (path == g.base.path || EndsInSlash(g.base.path))
            && ('\\' !in named ==> path == g.base.path + named)
            && (WellEscaped(g.base.path) ==> WellEscaped(path))
  {
    hide Join;
    hide Normalize;
    hide Urls.IsNormalPath;
    hide Urls.NormalizePath;
    var askedTarget, allow := Asked(g, verb, target).1, g.allowEncodedSeparators;
    var named := Normalize(askedTarget, allow).value.path;
    ResolvedIsWithinTheBase(g, verb, target);
    JoinIsExact(g, askedTarget, allow);
    AcceptedPathIsChecked(askedTarget, allow);
    if '\\' !in named {
      EscapeIsUnreachable(g, askedTarget, allow);
    }
    if g.scope == Exact {
      assert g.base.path + named == g.base.path;
      Urls.NormalPathIsFixed(g.base.path);
    }
    if WellEscaped(g.base.path) {
      hide Decoded;
      hide GoodSegments;
      DecodeConcat(g.base.path, named);
      NormalizedIsWellEscaped(g.base.path + named);
    }
  }

  /** Base and path keep one meaning exactly when neither the base nor the rest hides dots. */
  ghost predicate MeansOneThingExactly(base: string, path: string) {
    && base <= path && (KeepsOneMeaning(path) <==> HidesNoDots(path))
    && (HidesNoDots(path) <==> HidesNoDots(base) && HidesNoDots(path[|base|..]))
  }

  lemma NormalPathMeansOneThing(base: string, path: string)
    requires Urls.IsNormalPath(path) && base <= path && (path == base || EndsInSlash(base))
    ensures MeansOneThingExactly(base, path)
  {
    hide KeepsOneMeaning;
    hide HidesNoDots;
    NormalPathHasNoDots(path);
    hide Urls.IsNormalPath;
    hide NoDots;
    MeaningIsExact(path);
    if path == base {
      assert path[|base|..] == [];
      EmptyHidesNothing();
    } else {
      assert path == base + path[|base|..];
      HidesNoDotsConcat(base, path[|base|..]);
    }
  }

  /** Under every setting, a resolved path keeps one meaning for every origin exactly when neither
      the base nor what goes beyond it hides a dot segment. */
  lemma ResolvedMeansOneThingExactly(g: Grant, verb: string, target: string)
    requires IsGrant(g) && Resolve(g, verb, target).Ok?
    ensures MeansOneThingExactly(g.base.path, Resolve(g, verb, target).value.1.path)
  {
    hide Resolve;
    hide IsGrant;
    hide MeansOneThingExactly;
    hide Urls.IsNormalPath;
    ResolvedPathIsJoined(g, verb, target);
    NormalPathMeansOneThing(g.base.path, Resolve(g, verb, target).value.1.path);
  }

  lemma NormalPathHasNoDots(path: string)
    requires Urls.IsNormalPath(path)
    ensures path != [] && path[0] == '/' && NoDots(path)
  {
    hide SplitOn;
    var pieces := SplitOn(path, '/');
    forall k | 0 <= k < |pieces| ensures !IsDots(pieces[k]) {
      assert !Urls.IsDotLike(pieces[k]);
    }
  }

  /** Under every setting, a resolved path stays beneath the base for an origin that decodes first,
      unless its segments climb. */
  lemma ResolvedStaysUnlessItClimbs(g: Grant, verb: string, target: string)
    requires IsGrant(g) && Resolve(g, verb, target).Ok? && CleanBase(g.base.path)
    ensures StaysUnlessItClimbs(g.base.path, Resolve(g, verb, target).value.1.path)
  {
    hide Resolve;
    hide IsGrant;
    hide StaysUnlessItClimbs;
    hide Urls.IsNormalPath;
    ResolvedPathIsJoined(g, verb, target);
    var path, base := Resolve(g, verb, target).value.1.path, g.base.path;
    if path == base {
      BaseItselfStays(base);
    } else {
      assert path == base + path[|base|..];
      ExtendedBaseStays(base, path[|base|..]);
    }
  }

  /** Exactly which requests resolve. With encoded separators off the last check, on the
      assembled URL, never decides. */
  lemma ResolveIsExact(g: Grant, verb: string, target: string)
    requires IsGrant(g)
    ensures var (askedVerb, askedTarget) := Asked(g, verb, target);
            Resolve(g, verb, target).Ok?
            <==> Canonicalize(askedVerb).Some? && Canonicalize(askedVerb).value in g.methods
                 && Acceptable(askedTarget, g.allowEncodedSeparators)
                 && ('?' in askedTarget ==> g.allowQuery)
                 && (g.scope == Exact ==> PathOf(askedTarget) == "/")
                 && (g.allowEncodedSeparators ==> JoinStaysBeneath(g, askedTarget))
  {
    hide Join;
    hide IsGrant;
    hide Acceptable;
    hide JoinedPath;
    var askedTarget, allow := Asked(g, verb, target).1, g.allowEncodedSeparators;
    NormalizeIsExact(askedTarget, allow);
    if Normalize(askedTarget, allow).Ok? {
      var t := Normalize(askedTarget, allow).value;
      PartsOfAccepted(askedTarget, allow);
      if g.scope == Exact ==> t.path == [] {
        JoinIsExact(g, askedTarget, allow);
        if !allow {
          EscapeIsUnreachable(g, askedTarget, allow);
        }
      }
    }
  }

  /** Whatever resolves, encoded separators or not, keeps scheme and authority, and its path
      is normal and starts with the base path. */
  lemma ResolvedIsWithinTheBase(g: Grant, verb: string, target: string)
    requires IsGrant(g) && Resolve(g, verb, target).Ok?
    ensures var url := Resolve(g, verb, target).value.1;
            && url.scheme == g.base.scheme && url.authority == g.base.authority
            && g.base.path <= url.path && Urls.IsNormalPath(url.path)
  {
    hide Join;
    hide Normalize;
    hide Urls.IsNormalPath;
    hide Urls.NormalizePath;
    var askedTarget, allow := Asked(g, verb, target).1, g.allowEncodedSeparators;
    JoinIsExact(g, askedTarget, allow);
    TargetHasNoFragment(askedTarget, allow);
    Urls.NormalizedPathIsNormal(g.base.path + Normalize(askedTarget, allow).value.path);
  }

  /** The target `/` names the base itself, under every scope and setting. */
  lemma SlashNamesTheBase(g: Grant, verb: string)
    requires IsGrant(g) && g.fixed.None?
    requires Canonicalize(verb).Some? && Canonicalize(verb).value in g.methods
    ensures Resolve(g, verb, "/")
            == Ok((Canonicalize(verb).value,
                   Urls.Url(g.base.scheme, g.base.authority, g.base.path, None, None)))
  {
    hide Join;
    hide Normalize;
    hide IsGrant;
    hide Canonicalize;
    SlashIsAccepted(g.allowEncodedSeparators);
    EscapeIsUnreachable(g, "/", g.allowEncodedSeparators);
    assert g.base.path + [] == g.base.path;
  }

  lemma PartsOfAccepted(target: string, allow: bool)
    requires Normalize(target, allow).Ok?
    ensures var t := Normalize(target, allow).value;
            && PathOf(target) == "/" + t.path
            && (t.path == [] <==> PathOf(target) == "/") && (t.query.Some? <==> '?' in target)
  {
    NormalizeIsLossless(target, allow);
    assert PathOf(target)[0] == '/' by {
      assert target[0] == '/';
    }
    assert PathOf(target) == "/" + PathOf(target)[1..];
  }

  /** A pinned request is never refused for its method, whatever the client asks. */
  lemma PinningPermitsItsMethod(g: Grant, fixed: FixedRequest, verb: string, target: string, name: string)
    ensures Resolve(WithFixedRequest(g, fixed), verb, target) == Err(Denied.Method(name))
            ==> Canonicalize(fixed.verb).None?
    ensures Canonicalize(fixed.verb).Some?
            ==> WithFixedRequest(g, fixed).methods == {Canonicalize(fixed.verb).value}
  {
    hide Join;
    hide Normalize;
    if Canonicalize(fixed.verb).Some? {
      SingleMethodParses(fixed.verb);
      JoinRefusesOnlyEscapes(WithFixedRequest(g, fixed));
    }
  }

  lemma JoinRefusesOnlyEscapes(g: Grant)
    ensures forall t :: Join(g, t).Err? ==> Join(g, t) == Err(Escape)
  {
    hide Urls.Parse;
    hide Urls.UrlText;
  }

  // ----- headers -----

  const DENIED_CLIENT_HEADERS: seq<string> := [
    "authorization", "connection", "content-length", "cookie", "expect", "host", "keep-alive",
    "proxy-authenticate", "proxy-authorization", "proxy-connection", "te", "trailer",
    "transfer-encoding", "upgrade"]

  predicate Permits(policy: HeaderPolicy, lower: string) {
    lower !in DENIED_CLIENT_HEADERS
    && match policy
       case NoHeaders => false
       case AllExceptDenied => true
       case Allowed(names) => lower in names
  }

  predicate IsInjected(g: Grant, lower: string) {
    exists i :: 0 <= i < |g.injections| && Lower(g.injections[i].0) == lower
  }

  predicate Admitted(g: Grant, h: Header) {
    !IsInjected(g, Lower(h.0)) && Permits(g.policy, Lower(h.0))
  }

  /** The first client header that is refused. */
  function FirstRefused(g: Grant, client: seq<Header>): (r: Option<nat>)
    ensures r.Some? ==> r.value < |client| && !Admitted(g, client[r.value])
    ensures r.Some? ==> forall i :: 0 <= i < r.value ==> Admitted(g, client[i])
    ensures r.None? ==> forall i :: 0 <= i < |client| ==> Admitted(g, client[i])
  {
    if client == [] then None
    else if !Admitted(g, client[0]) then Some(0)
    else match FirstRefused(g, client[1..])
         case None => None
         case Some(i) => Some(i + 1)
  }

  /** The headers that go upstream. */
  function Applied(g: Grant, client: seq<Header>): Result<seq<Header>, Denied> {
    match FirstRefused(g, client)
    case None => Ok(client + g.injections)
    case Some(i) => Err(Denied.Header(Sanitize(client[i].0, "<empty>")))
  }

  method ApplyHeaders(g: Grant, client: seq<Header>) returns (r: Result<seq<Header>, Denied>)
    ensures r == Applied(g, client)
  {
    hide Permits;
    var injected: set<string> := {};
    for i := 0 to |g.injections|
      invariant forall s :: s in injected <==> exists j :: 0 <= j < i && Lower(g.injections[j].0) == s
    {
      injected := injected + {Lower(g.injections[i].0)};
    }
    var out: seq<Header> := [];
    for i := 0 to |client|
      invariant out == client[..i]
      invariant forall j :: 0 <= j < i ==> Admitted(g, client[j])
    {
      var (name, value) := client[i];
      var lower := Lower(name);
      if lower in injected || !Permits(g.policy, lower) {
        assert !Admitted(g, client[i]);
        return Err(Denied.Header(Sanitize(name, "<empty>")));
      }
      assert Admitted(g, client[i]);
      out := out + [(name, value)];
    }
    assert out == client;
    for i := 0 to |g.injections|
      invariant out == client + g.injections[..i]
    {
      out := out + [g.injections[i]];
    }
    assert g.injections[..|g.injections|] == g.injections;
    return Ok(out);
  }

  // ----- headers that belong to the descriptor leg -----

  const DESCRIPTOR_LEG_HEADERS: seq<string> := [
    "connection", "content-length", "expect", "host", "keep-alive", "proxy-connection", "te",
    "trailer", "transfer-encoding", "upgrade"]

  predicate IsLegHeader(h: Header) {
    Lower(h.0) in DESCRIPTOR_LEG_HEADERS
  }

  predicate IsOwnHeader(h: Header) {
    !IsLegHeader(h)
  }

  /** The client's headers without those of the descriptor leg. */
  function WithoutLeg(headers: seq<Header>): seq<Header> {
    Kept(headers, IsOwnHeader)
  }

  /** Dropping a leg header never drops one that some policy would have admitted. */
  lemma LegHeadersAreNeverAdmitted(g: Grant, h: Header)
    requires IsLegHeader(h)
    ensures !Admitted(g, h)
  {
    LegHeadersAreDenied(Lower(h.0));
  }

  lemma LegHeadersAreDenied(name: string)
    requires name in DESCRIPTOR_LEG_HEADERS
    ensures name in DENIED_CLIENT_HEADERS
  {
    var d := DENIED_CLIENT_HEADERS;
    assert d[1] == "connection" && d[2] == "content-length" && d[4] == "expect" && d[5] == "host";
    assert d[6] == "keep-alive" && d[9] == "proxy-connection" && d[10] == "te" && d[11] == "trailer";
    assert d[12] == "transfer-encoding" && d[13] == "upgrade";
  }

  /** The values under one name, in order. */
  function Values(headers: seq<Header>, name: string): seq<string> {
    if headers == [] then []
    else (if EqIgnoreCase(headers[0].0, name) then [headers[0].1] else []) + Values(headers[1..], name)
  }

  function NamedAs(name: string): Header -> bool {
    (h: Header) => EqIgnoreCase(h.0, name)
  }

  /** They are those of the headers of that name up to case: each one, in order. */
  lemma ValuesArePicked(headers: seq<Header>, name: string)
    ensures exists named: seq<Header>, places ::
              && Picks(headers, named, NamedAs(name), places) && |Values(headers, name)| == |named|
              && forall k :: 0 <= k < |named| ==> Values(headers, name)[k] == named[k].1
  {
    hide Picks;
    ValuesOfKept(headers, name);
    var places := KeptPicks(headers, NamedAs(name));
    assert Picks(headers, Kept(headers, NamedAs(name)), NamedAs(name), places);
  }

  lemma {:induction false} ValuesOfKept(headers: seq<Header>, name: string)
    ensures var named := Kept(headers, NamedAs(name));
            && |Values(headers, name)| == |named|
            && forall k :: 0 <= k < |named| ==> Values(headers, name)[k] == named[k].1
  {
    hide EqIgnoreCase;
    if headers != [] {
      ValuesOfKept(headers[1..], name);
    }
  }

  lemma {:induction false} ValuesConcat(a: seq<Header>, b: seq<Header>, name: string)
    ensures Values(a + b, name) == Values(a, name) + Values(b, name)
  {
    if a == [] {
      assert a + b == b;
    } else {
      assert (a + b)[1..] == a[1..] + b;
      ValuesConcat(a[1..], b, name);
      Assoc(if EqIgnoreCase(a[0].0, name) then [a[0].1] else [], Values(a[1..], name), Values(b, name));
    }
  }

  lemma {:induction false} NoValues(headers: seq<Header>, name: string)
    requires forall i :: 0 <= i < |headers| ==> !EqIgnoreCase(headers[i].0, name)
    ensures Values(headers, name) == []
  {
    if headers != [] {
      assert forall i :: 0 <= i < |headers[1..]| ==> headers[1..][i] == headers[i + 1];
      NoValues(headers[1..], name);
    }
  }

  /** Leg filtering and the policy together: a request goes upstream exactly when every
      header outside the descriptor leg is admitted, with the admitted headers in order and
      then the injections; and under an injected name the origin sees the injected values
      and no others. */
  lemma UpstreamHeadersAreExact(g: Grant, headers: seq<Header>)
    ensures Applied(g, WithoutLeg(headers)).Ok?
            <==> forall i :: 0 <= i < |headers| ==> IsLegHeader(headers[i]) || Admitted(g, headers[i])
    ensures Applied(g, WithoutLeg(headers)).Ok? ==>
              exists client, places ::
                && Applied(g, WithoutLeg(headers)).value == client + g.injections
                && Picks(headers, client, IsOwnHeader, places)
    ensures Applied(g, WithoutLeg(headers)).Ok? ==>
              forall name :: IsInjected(g, Lower(name)) ==>
                Values(Applied(g, WithoutLeg(headers)).value, name) == Values(g.injections, name)
  {
    hide IsLegHeader;
    hide Permits;
    hide Kept;
    hide Picks;
    var client := WithoutLeg(headers);
    if Applied(g, client).Ok? {
      var places := KeptPicks(headers, IsOwnHeader);
      forall i | 0 <= i < |headers| ensures IsLegHeader(headers[i]) || Admitted(g, headers[i]) {
        KeptMembers(headers, IsOwnHeader, headers[i]);
      }
      forall name | IsInjected(g, Lower(name))
        ensures Values(client + g.injections, name) == Values(g.injections, name)
      {
        forall i | 0 <= i < |client| ensures !EqIgnoreCase(client[i].0, name) {
          assert Admitted(g, client[i]);
        }
        NoValues(client, name);
        ValuesConcat(client, g.injections, name);
      }
    } else {
      var h := client[FirstRefused(g, client).value];
      KeptMembers(headers, IsOwnHeader, h);
    }
  }
}
