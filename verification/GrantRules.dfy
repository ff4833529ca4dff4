/** What a grant is made of, and what it resolves: exactly which requests, to what, and why not. */
module GrantRules {
  import opened Octets
  import opened Errors
  import opened Target
  import opened Methods
  import opened Grants
  import opened UrlRules
  import Urls

  // ----- building a grant -----

  /** A grant is made exactly from a URL over HTTP without user, query or fragment; and then with
      these settings. */
  lemma NewGrantIsExact(text: string, g: Grant)
    ensures NewGrant(text) == Ok(g)
            <==> exists raw ::
                   && SpellsUrl(text, g.base, raw, "") && (g.base.scheme == "http" || g.base.scheme == "https")
                   && '@' !in g.base.authority && g.base.query == None && g.base.fragment == None
                   && g.scope == (if g.base.path[|g.base.path| - 1] == '/' then Prefix else Exact)
                   && g.methods == {"GET", "HEAD"} && g.injections == [] && g.policy == AllExceptDenied
                   && g.fixed == None && g.allowQuery && !g.allowEncodedSeparators
                   && g.maxRequestBody == 8388608 && g.maxResponseBody == 8388608
  {
    hide Urls.Parse;
    hide Urls.NormalizePath;
    UrlIsExact(text, g.base);
    if NewGrant(text) == Ok(g) {
      var raw, tail :| SpellsUrl(text, g.base, raw, tail);
      assert tail == "";
    }
  }

  // ----- pinning -----

  /** Pinning changes nothing of a grant but the pinned request and the methods. */
  lemma PinningIsExact(g: Grant, fixed: FixedRequest)
    ensures var pinned := WithFixedRequest(g, fixed);
            && pinned.fixed == Some(fixed) && pinned.(fixed := g.fixed, methods := g.methods) == g
            && (Canonicalize(fixed.verb).Some? ==> pinned.methods == {Canonicalize(fixed.verb).value})
            && (Canonicalize(fixed.verb).None? ==> pinned.methods == g.methods)
  {
    hide ParseMethods;
    if Canonicalize(fixed.verb).Some? {
      SingleMethodParses(fixed.verb);
    }
  }

  /** A pinned grant resolves whatever is asked as the grant without the pin resolves the pinned
      request, and that is what it binds. */
  lemma PinnedRequestsAreResolved(g: Grant, fixed: FixedRequest, verb: string, target: string)
    ensures Resolve(g.(fixed := Some(fixed)), verb, target) == Resolve(g.(fixed := None), fixed.verb, fixed.target)
  {
    hide Normalize;
    hide Sanitize;
    JoinIgnoresThePin(g, Some(fixed));
  }

  lemma JoinIgnoresThePin(g: Grant, fixed: Option<FixedRequest>)
    ensures forall t :: Join(g.(fixed := fixed), t) == Join(g.(fixed := None), t)
  {
    hide Urls.Parse;
    hide Urls.UrlText;
  }

  // ----- what resolves -----

  /** The method that is asked for, in its canonical spelling, is one that is granted. */
  ghost predicate IsGranted(g: Grant, verb: string, name: string) {
    && IsToken(verb) && |verb| <= 32 && EqIgnoreCase(name, verb) && name in g.methods
    && forall i :: 0 <= i < |name| ==> !('a' <= name[i] <= 'z')
  }

  lemma GrantedByName(g: Grant, verb: string, name: string)
    ensures IsGranted(g, verb, name) <==> Canonicalize(verb) == Some(name) && name in g.methods
  {
    CanonicalizeIsExact(verb, name);
  }

  /** The target is acceptable, has a query only if that is allowed, and names only what the scope
      and the base leave room for. */
  ghost predicate IsInScope(g: Grant, target: string) {
    && Acceptable(target, g.allowEncodedSeparators) && ('?' in target ==> g.allowQuery)
    && (g.scope == Exact ==> PathOf(target) == "/")
    && (g.allowEncodedSeparators ==> JoinStaysBeneath(g, target))
  }

  /** Exactly what a grant without a pin resolves, and to what: the canonical method, and the base with
      the target's path behind its own and the target's query. */
  lemma ResolutionIsExact(g: Grant, verb: string, target: string, name: string, url: Urls.Url)
    requires IsGrant(g) && g.fixed.None?
    ensures Resolve(g, verb, target) == Ok((name, url))
            <==> && IsGranted(g, verb, name) && IsInScope(g, target)
                 && url == g.base.(path := JoinedPath(g, PathOf(target)[1..]), query := QueryOf(target))
  {
    hide Acceptable;
    hide Canonicalize;
    hide IsGranted;
    hide IsGrant;
    hide JoinedPath;
    GrantedByName(g, verb, name);
    ResolveIsExact(g, verb, target);
    hide Resolve;
    if Resolve(g, verb, target).Ok? {
      ResolvedParts(g, verb, target);
    }
  }

  lemma ResolvedParts(g: Grant, verb: string, target: string)
    requires IsGrant(g) && g.fixed.None? && Resolve(g, verb, target).Ok?
    ensures PathOf(target) != [] && Canonicalize(verb).Some?
    ensures Resolve(g, verb, target)
            == Ok((Canonicalize(verb).value,
                   g.base.(path := JoinedPath(g, PathOf(target)[1..]), query := QueryOf(target))))
  {
    hide Join;
    hide JoinedPath;
    hide Canonicalize;
    hide IsGrant;
    NormalizedParts(target, g.allowEncodedSeparators);
    hide Normalize;
    JoinIsExact(g, target, g.allowEncodedSeparators);
    BaseIsBare(g);
  }

  lemma BaseIsBare(g: Grant)
    requires IsGrant(g)
    ensures g.base.fragment == None
  {
  }

  lemma NormalizedParts(target: string, allow: bool)
    requires Normalize(target, allow).Ok?
    ensures PathOf(target) != []
    ensures Normalize(target, allow) == Ok(NormalizedTarget(PathOf(target)[1..], QueryOf(target)))
  {
    hide CheckPath;
    assert PathOf(target)[0] == '/' by {
      assert target[0] == '/';
    }
  }

  /** The case in which a method is asked for never matters to a grant without a pin. */
  lemma CaseOfMethodNeverMatters(g: Grant, a: string, b: string, target: string)
    requires g.fixed.None? && EqIgnoreCase(a, b) && Canonicalize(a).Some?
    ensures Resolve(g, a, target) == Resolve(g, b, target)
  {
    hide Normalize;
    hide Join;
    hide EqIgnoreCase;
    CaseOfMethodIsIrrelevant(a, b);
    hide Canonicalize;
  }

  /** A new grant permits reading, in any case. */
  lemma NewGrantsPermitReading(text: string, verb: string)
    requires NewGrant(text).Ok? && (EqIgnoreCase(verb, "GET") || EqIgnoreCase(verb, "HEAD"))
    ensures Resolve(NewGrant(text).value, verb, "/")
            == Ok((if EqIgnoreCase(verb, "GET") then "GET" else "HEAD", NewGrant(text).value.base))
  {
    var g := NewGrant(text).value;
    var name := if EqIgnoreCase(verb, "GET") then "GET" else "HEAD";
    NewGrantIsExact(text, g);
    GrantsAreNormalized(text);
    hide NewGrant;
    hide IsGrant;
    ReadingIsCanonical();
    CaseOfMethodIsIrrelevant(verb, name);
    hide Canonicalize;
    hide EqIgnoreCase;
    hide Resolve;
    SlashNamesTheBase(g, verb);
    assert g.base == Urls.Url(g.base.scheme, g.base.authority, g.base.path, None, None);
  }

  lemma ReadingIsCanonical()
    ensures Canonicalize("GET") == Some("GET") && Canonicalize("HEAD") == Some("HEAD")
  {
    CanonicalizeIsExact("GET", "GET");
    CanonicalizeIsExact("HEAD", "HEAD");
  }

  // ----- why a request does not resolve -----

  /** The reasons, in the order in which they are looked for: the method; the target; a query that is
      not allowed; a target beyond an exact resource; and a path that leaves the base. */
  ghost predicate IsReason(g: Grant, verb: string, target: string, e: Denied) {
    if Canonicalize(verb).None? then e == Denied.Method(Sanitize(verb, "<empty>"))
    else if Canonicalize(verb).value !in g.methods then e == Denied.Method(Canonicalize(verb).value)
    else if Normalize(target, g.allowEncodedSeparators).Err? then
      e == Denied.Target(Normalize(target, g.allowEncodedSeparators).error)
    else if '?' in target && !g.allowQuery then e == Denied.Target(QueryNotAllowed)
    else if g.scope == Exact && PathOf(target) != "/" then e == ExactResource
    else g.allowEncodedSeparators && !JoinStaysBeneath(g, target) && e == Escape
  }

  lemma RefusalsAreExact(g: Grant, verb: string, target: string, e: Denied)
    requires IsGrant(g) && g.fixed.None?
    ensures Resolve(g, verb, target) == Err(e) <==> IsReason(g, verb, target, e)
  {
    hide Acceptable;
    hide Canonicalize;
    hide IsGrant;
    hide Sanitize;
    hide Join;
    hide JoinStaysBeneath;
    ResolveIsExact(g, verb, target);
    NormalizeIsExact(target, g.allowEncodedSeparators);
    hide Normalize;
    JoinRefusesOnlyEscapes(g);
    if Normalize(target, g.allowEncodedSeparators).Ok? {
      PartsOfAccepted(target, g.allowEncodedSeparators);
    }
  }
}
