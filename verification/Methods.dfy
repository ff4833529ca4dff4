/** The method set of a grant: parsing, printing and canonical spelling. */
module Methods {
  import opened Octets

  datatype GrantError = BaseUri | Injection | BadMethod(name: string)

  type MethodSet = set<string>

  const SAFE_DEFAULT: MethodSet := {"GET", "HEAD"}

  /** The length limit is on bytes; a text that is longer in bytes than in characters is not
      a token, and is refused either way. */
  function Canonicalize(name: string): Option<string> {
    if name == [] || |name| > 32 || !AllOf(name, IsTokenByte) then None else Some(Upper(name))
  }

  /** A spelling that canonicalization leaves alone. */
  predicate IsCanonical(name: string) {
    Canonicalize(name) == Some(name)
  }

  lemma CanonicalizeIsIdempotent(name: string)
    requires Canonicalize(name).Some?
    ensures IsCanonical(Canonicalize(name).value)
    ensures IsToken(Canonicalize(name).value) && EqIgnoreCase(Canonicalize(name).value, name)
  {
    var up := Upper(name);
    UpperKeepsFold(name);
    forall i | 0 <= i < |up| ensures IsTokenByte(up[i]) {
      assert IsTokenByte(name[i]);
    }
  }

  // ----- parsing a comma-separated list -----

  function AddMethod(sofar: MethodSet, raw: string): Result<MethodSet, GrantError> {
    var name := Trim(raw);
    if name == [] then Ok(sofar)
    else match Canonicalize(name)
         case None => Err(BadMethod(Sanitize(name, "<empty>")))
         case Some(canonical) => Ok(sofar + {canonical})
  }

  function AddMethods(sofar: MethodSet, pieces: seq<string>): Result<MethodSet, GrantError>
    decreases |pieces|
  {
    if pieces == [] then Ok(sofar)
    else match AddMethod(sofar, pieces[0])
         case Err(e) => Err(e)
         case Ok(more) => AddMethods(more, pieces[1..])
  }

  function ParseMethods(spec: string): Result<MethodSet, GrantError> {
    match AddMethods({}, SplitOn(spec, ','))
    case Err(e) => Err(e)
    case Ok(methods) => if methods == {} then Err(BadMethod("<empty>")) else Ok(methods)
  }

  method ReadMethods(spec: string) returns (r: Result<MethodSet, GrantError>)
    ensures r == ParseMethods(spec)
  {
    var methods: MethodSet := {};
    var pieces := SplitOn(spec, ',');
    for i := 0 to |pieces|
      invariant AddMethods(methods, pieces[i..]) == AddMethods({}, pieces)
    {
      assert pieces[i..][1..] == pieces[i + 1..];
      var name := Trim(pieces[i]);
      if name != [] {
        var canonical := Canonicalize(name);
        if canonical.None? {
          return Err(BadMethod(Sanitize(name, "<empty>")));
        }
        methods := methods + {canonical.value};
      }
    }
    if methods == {} {
      return Err(BadMethod("<empty>"));
    }
    return Ok(methods);
  }

  // ----- printing -----

  /** `order` lists the members of the set once each, as iteration does. */
  ghost predicate Enumerates(order: seq<string>, methods: MethodSet) {
    (forall i :: 0 <= i < |order| ==> order[i] in methods) && (forall m :: m in methods ==> m in order)
  }

  method Display(order: seq<string>) returns (text: string)
    requires order != []
    ensures text == JoinWith(order, ',')
  {
    text := "";
    var first := true;
    for i := 0 to |order|
      invariant first <==> i == 0
      invariant i == 0 ==> text == ""
      invariant i > 0 ==> text == JoinWith(order[..i], ',')
    {
      if !first {
        text := text + ",";
        JoinWithLast(order[..i], order[i], ',');
        assert order[..i + 1] == order[..i] + [order[i]];
      } else {
        assert order[..1] == [order[0]];
      }
      text := text + order[i];
      first := false;
    }
    assert order[..|order|] == order;
  }

  lemma {:induction false} JoinWithLast(parts: seq<string>, last: string, c: char)
    requires parts != []
    ensures JoinWith(parts + [last], c) == JoinWith(parts, c) + [c] + last
  {
    var all := parts + [last];
    if |parts| == 1 {
      assert all[1..] == [last];
    } else {
      assert all[1..] == parts[1..] + [last];
      JoinWithLast(parts[1..], last, c);
      var head, mid := parts[0] + [c], JoinWith(parts[1..], c);
      Assoc(head, mid + [c], last);
      Assoc(head, mid, [c]);
    }
  }

  // ----- round trip -----

  ghost predicate AllCanonical(names: seq<string>) {
    forall i :: 0 <= i < |names| ==> IsCanonical(names[i])
  }

  lemma CanonicalIsBare(name: string)
    requires IsCanonical(name)
    ensures name != [] && Trim(name) == name && ',' !in name
  {
    assert IsTokenByte(name[0]) && IsTokenByte(name[|name| - 1]);
    assert forall i :: 0 <= i < |name| ==> IsTokenByte(name[i]);
    TrimOfTrimmed(name, IsWhite);
  }

  function Members(names: seq<string>): MethodSet {
    set i | 0 <= i < |names| :: names[i]
  }

  lemma {:induction false} AddCanonical(sofar: MethodSet, names: seq<string>)
    requires AllCanonical(names)
    ensures AddMethods(sofar, names) == Ok(sofar + Members(names))
    decreases |names|
  {
    if names == [] {
      assert sofar + Members(names) == sofar;
    } else {
      CanonicalIsBare(names[0]);
      assert IsCanonical(names[0]);
      assert forall i :: 0 <= i < |names[1..]| ==> names[1..][i] == names[i + 1];
      AddCanonical(sofar + {names[0]}, names[1..]);
      assert Members(names) == {names[0]} + Members(names[1..]) by {
        assert names == [names[0]] + names[1..];
        assert forall m :: m in Members(names) ==> m in {names[0]} + Members(names[1..]);
        assert forall i :: 0 <= i < |names[1..]| ==> names[1..][i] == names[i + 1] && names[i + 1] in Members(names);
      }
      assert sofar + Members(names) == sofar + {names[0]} + Members(names[1..]);
    }
  }

  lemma {:induction false} ParsedAreCanonical(sofar: MethodSet, pieces: seq<string>)
    requires AddMethods(sofar, pieces).Ok? && forall m :: m in sofar ==> IsCanonical(m)
    ensures forall m :: m in AddMethods(sofar, pieces).value ==> IsCanonical(m)
    decreases |pieces|
  {
    if pieces != [] {
      var name := Trim(pieces[0]);
      if name != [] {
        CanonicalizeIsIdempotent(name);
      }
      ParsedAreCanonical(AddMethod(sofar, pieces[0]).value, pieces[1..]);
    }
  }

  /** Parsing the printed form of a parsed set gives the set back, in whatever order the
      members were printed. */
  lemma MethodSetsRoundTrip(spec: string, order: seq<string>)
    requires ParseMethods(spec).Ok? && Enumerates(order, ParseMethods(spec).value)
    ensures order != [] && ParseMethods(JoinWith(order, ',')) == ParseMethods(spec)
  {
    var methods := ParseMethods(spec).value;
    ParsedAreCanonical({}, SplitOn(spec, ','));
    var member :| member in methods;
    assert member in order;
    forall i | 0 <= i < |order| ensures ',' !in order[i] && IsCanonical(order[i]) {
      CanonicalIsBare(order[i]);
    }
    SplitJoin(order, ',');
    AddCanonical({}, order);
    assert {} + Members(order) == methods;
  }

  /** A single valid method parses to exactly its own singleton. */
  lemma SingleMethodParses(name: string)
    requires Canonicalize(name).Some?
    ensures ParseMethods(Canonicalize(name).value) == Ok({Canonicalize(name).value})
  {
    var canonical := Canonicalize(name).value;
    CanonicalizeIsIdempotent(name);
    CanonicalIsBare(canonical);
    SplitJoin([canonical], ',');
    AddCanonical({}, [canonical]);
    assert {} + Members([canonical]) == {canonical};
  }

  // ----- exactly -----

  /** The canonical spelling, without reference to how it is made: the same token up to case,
      without a lower-case letter. */
  lemma CanonicalizeIsExact(name: string, canonical: string)
    ensures Canonicalize(name) == Some(canonical)
            <==> IsToken(name) && |name| <= 32 && EqIgnoreCase(canonical, name)
                 && forall i :: 0 <= i < |canonical| ==> !('a' <= canonical[i] <= 'z')
  {
    var up := Upper(name);
    UpperKeepsFold(name);
    if EqIgnoreCase(canonical, name) && forall i :: 0 <= i < |canonical| ==> !('a' <= canonical[i] <= 'z') {
      assert |Lower(canonical)| == |Lower(name)|;
      forall i | 0 <= i < |name| ensures canonical[i] == up[i] {
        assert Lower(canonical)[i] == LowerByte(canonical[i]) && Lower(name)[i] == LowerByte(name[i]);
      }
      assert canonical == up;
    }
  }

  lemma TokenFoldsToToken(a: string, b: string)
    requires EqIgnoreCase(a, b) && IsToken(a)
    ensures IsToken(b) && |a| == |b|
  {
    assert |Lower(a)| == |Lower(b)|;
    forall i | 0 <= i < |b| ensures IsTokenByte(b[i]) {
      assert Lower(a)[i] == LowerByte(a[i]) && Lower(b)[i] == LowerByte(b[i]) && IsTokenByte(a[i]);
    }
  }

  /** The case in which a method is written never matters. */
  lemma CaseOfMethodIsIrrelevant(a: string, b: string)
    requires EqIgnoreCase(a, b)
    ensures Canonicalize(a) == Canonicalize(b)
  {
    hide EqIgnoreCase;
    FoldIsEquality(a, b);
    if Canonicalize(a).Some? {
      CanonicalizeIsExact(a, Canonicalize(a).value);
      TokenFoldsToToken(a, b);
      FoldChains(Canonicalize(a).value, a, b);
      CanonicalizeIsExact(b, Canonicalize(a).value);
    } else if Canonicalize(b).Some? {
      CanonicalizeIsExact(b, Canonicalize(b).value);
      TokenFoldsToToken(b, a);
      FoldChains(Canonicalize(b).value, b, a);
      CanonicalizeIsExact(a, Canonicalize(b).value);
    }
  }

  lemma FoldIsEquality(a: string, b: string)
    ensures EqIgnoreCase(a, b) == EqIgnoreCase(b, a)
  {
  }

  lemma FoldChains(a: string, b: string, c: string)
    requires EqIgnoreCase(a, b) && EqIgnoreCase(b, c)
    ensures EqIgnoreCase(a, c)
  {
  }

  /** What a list names: the canonical spellings of its entries, without the white space around
      them; empty entries name nothing. */
  ghost predicate Names(pieces: seq<string>, m: string) {
    exists k :: 0 <= k < |pieces| && Trim(pieces[k]) != [] && Canonicalize(Trim(pieces[k])) == Some(m)
  }

  ghost predicate AllAreMethods(pieces: seq<string>) {
    forall k :: 0 <= k < |pieces| && Trim(pieces[k]) != [] ==> Canonicalize(Trim(pieces[k])).Some?
  }

  lemma {:induction false} AddedAreNamed(sofar: MethodSet, pieces: seq<string>)
    ensures AddMethods(sofar, pieces).Ok? <==> AllAreMethods(pieces)
    ensures AddMethods(sofar, pieces).Ok? ==>
              forall m :: m in AddMethods(sofar, pieces).value <==> m in sofar || Names(pieces, m)
    decreases |pieces|
  {
    hide Canonicalize;
    hide Trim;
    hide Sanitize;
    if pieces != [] {
      var rest := pieces[1..];
      assert forall k :: 0 <= k < |rest| ==> rest[k] == pieces[k + 1];
      assert AllAreMethods(pieces) ==> AllAreMethods(rest);
      if AddMethod(sofar, pieces[0]).Ok? {
        var more := AddMethod(sofar, pieces[0]).value;
        AddedAreNamed(more, rest);
        forall m ensures Names(pieces, m)
                         <==> Names(rest, m) || (Trim(pieces[0]) != [] && Canonicalize(Trim(pieces[0])) == Some(m))
        {
          NamesStep(pieces, m);
        }
      }
    }
  }

  lemma NamesStep(pieces: seq<string>, m: string)
    requires pieces != []
    ensures Names(pieces, m)
            <==> Names(pieces[1..], m) || (Trim(pieces[0]) != [] && Canonicalize(Trim(pieces[0])) == Some(m))
  {
    hide Canonicalize;
    hide Trim;
    var rest := pieces[1..];
    if k :| 0 <= k < |rest| && Trim(rest[k]) != [] && Canonicalize(Trim(rest[k])) == Some(m) {
      assert rest[k] == pieces[k + 1];
    }
    if k :| 0 <= k < |pieces| && Trim(pieces[k]) != [] && Canonicalize(Trim(pieces[k])) == Some(m) {
      assert k > 0 ==> rest[k - 1] == pieces[k];
    }
  }

  /** A list is accepted exactly when it names something and every entry is a method or empty; and
      then the set is what it names. */
  lemma MethodSetIsExact(spec: string)
    ensures ParseMethods(spec).Ok?
            <==> AllAreMethods(SplitOn(spec, ',')) && exists m :: Names(SplitOn(spec, ','), m)
    ensures ParseMethods(spec).Ok? ==> forall m :: m in ParseMethods(spec).value <==> Names(SplitOn(spec, ','), m)
  {
    hide AddMethods;
    hide Names;
    hide AllAreMethods;
    hide SplitOn;
    var pieces := SplitOn(spec, ',');
    AddedAreNamed({}, pieces);
    if AddMethods({}, pieces).Ok? {
      var methods := AddMethods({}, pieces).value;
      if methods != {} {
        var m :| m in methods;
        assert Names(pieces, m);
      }
    }
  }

  /** The first entry that is no method. */
  ghost predicate FirstBad(pieces: seq<string>, k: nat) {
    k < |pieces| && Trim(pieces[k]) != [] && Canonicalize(Trim(pieces[k])).None? && AllAreMethods(pieces[..k])
  }

  lemma {:induction false} AddErrors(sofar: MethodSet, pieces: seq<string>) returns (k: nat)
    requires AddMethods(sofar, pieces).Err?
    ensures FirstBad(pieces, k)
    ensures AddMethods(sofar, pieces) == Err(BadMethod(Sanitize(Trim(pieces[k]), "<empty>")))
    decreases |pieces|
  {
    hide Canonicalize;
    hide Trim;
    hide Sanitize;
    if AddMethod(sofar, pieces[0]).Err? {
      k := 0;
    } else {
      var rest := pieces[1..];
      var j := AddErrors(AddMethod(sofar, pieces[0]).value, rest);
      k := j + 1;
      forall i | 0 <= i < k && Trim(pieces[i]) != [] ensures Canonicalize(Trim(pieces[..k][i])).Some? {
        if i > 0 {
          assert rest[..j][i - 1] == pieces[i];
        }
      }
    }
  }

  /** A list that is refused is refused for its first entry that is no method, or else because it
      names nothing. */
  lemma MethodSetErrors(spec: string)
    requires ParseMethods(spec).Err?
    ensures var pieces := SplitOn(spec, ',');
            if AllAreMethods(pieces) then ParseMethods(spec) == Err(BadMethod("<empty>"))
            else exists k: nat :: FirstBad(pieces, k)
                             && ParseMethods(spec) == Err(BadMethod(Sanitize(Trim(pieces[k]), "<empty>")))
  {
    hide AddMethods;
    hide SplitOn;
    hide Sanitize;
    hide FirstBad;
    hide AllAreMethods;
    var pieces := SplitOn(spec, ',');
    AddedAreNamed({}, pieces);
    if AddMethods({}, pieces).Err? {
      var k := AddErrors({}, pieces);
    }
  }
}
