/**
 The round trip of reverse routing: dispatching the decoded URL of a named route returns that
 route with exactly the supplied values if and only if the values are clean and no sibling that
 is tried first takes the request.
 */
module RoundTrip {
  import opened Text
  import opened Paths
  import opened Patterns
  import opened RouteTable
  import opened MatchLaws
  import opened Routing
  import opened Percent
  import opened ReverseRouting

  /** From segment `k` on, the parts have the form of the pattern (a wildcard takes what is left). */
  predicate Matches(segs: seq<Segment>, parts: seq<string>, k: nat)
    requires k <= |segs|
    decreases |segs| - k
  {
    if k == |segs| then |parts| == k
    else
      && k < |parts| && parts[k] != ""
      && match segs[k]
         case Static(raw) => parts[k] == raw && Matches(segs, parts, k + 1)
         case Param(_) => Matches(segs, parts, k + 1)
         case Wild(_) => k == |segs| - 1
  }

  /** The values of that form: one per capture. */
  function Full(segs: seq<Segment>, parts: seq<string>, raw: string, k: nat): seq<string>
    requires k <= |segs| && Matches(segs, parts, k)
    decreases |segs| - k
  {
    if k == |segs| then []
    else
      match segs[k]
      case Static(_) => Full(segs, parts, raw, k + 1)
      case Param(_) => [parts[k]] + Full(segs, parts, raw, k + 1)
      case Wild(_) => [Suffix(raw, Offset(parts, k))]
  }

  /** No route is reached through the request segment where the pattern has a capture. */
  predicate FreeAt(routes: seq<Route>, segs: seq<Segment>, parts: seq<string>, k: nat)
    requires k < |segs| && k < |parts|
  {
    && (!segs[k].Static? ==> Through(routes, Under(At(segs, k), parts[k])) == [])
    && (segs[k].Wild? ==> Through(routes, Under(At(segs, k), ":")) == [])
  }

  /** Nothing tried before the captures of the pattern takes the request away, from `k` on. */
  predicate Unshadowed(routes: seq<Route>, segs: seq<Segment>, parts: seq<string>, k: nat)
    requires k <= |segs|
    decreases |segs| - k
  {
    k == |segs| || (k < |parts| && FreeAt(routes, segs, parts, k) && Unshadowed(routes, segs, parts, k + 1))
  }

  lemma {:induction false} FitsIsMatches(segs: seq<Segment>, parts: seq<string>, raw: string, k: nat)
    requires k <= |segs| && Fits(segs, parts, k)
    ensures Matches(segs, parts, k)
    ensures |Captured(segs, parts, raw, k)| <= |Full(segs, parts, raw, k)|
    ensures |Captured(segs, parts, raw, k)| == |Full(segs, parts, raw, k)| ==>
              Captured(segs, parts, raw, k) == Full(segs, parts, raw, k)
    decreases |segs| - k
  {
    if k < |segs| && !segs[k].Wild? {
      FitsIsMatches(segs, parts, raw, k + 1);
    }
  }

  /** Routes of one list with the same pattern are the same. */
  lemma PatternUnique(routes: seq<Route>, i: nat, j: nat)
    requires ListOk(routes) && i < |routes| && j < |routes|
    ensures routes[i].pattern == routes[j].pattern <==> i == j
  {
    assert Textual(routes[i]) && Textual(routes[j]);
    assert i != j ==> End(routes[i].segs) != End(routes[j].segs);
  }

  /** What following the route at `j` from its `i`-th position on would give. */
  function Target(routes: seq<Route>, j: nat, i: nat, parts: seq<string>, raw: string, values: seq<string>): Option<MatchResult>
    requires j < |routes| && i <= |routes[j].segs| && Matches(routes[j].segs, parts, i)
  {
    Some(ResultOf(routes[j], values + Full(routes[j].segs, parts, raw, i)))
  }

  /** A walk that leaves through a request segment at a capture does not return the route with all values. */
  lemma AstrayExact(routes: seq<Route>, j: nat, i: nat, parts: seq<string>, raw: string, values: seq<string>)
    requires ListOk(routes) && j < |routes| && i < |routes[j].segs| && Matches(routes[j].segs, parts, i)
    requires !routes[j].segs[i].Static?
    ensures var out := Narrow(Through(routes, Under(At(routes[j].segs, i), parts[i])), i + 1, parts, raw, values);
            out.Some? && out.value.pattern == routes[j].pattern ==>
              |out.value.values| < |values| + |Full(routes[j].segs, parts, raw, i)|
  {
    var q := Under(At(routes[j].segs, i), parts[i]);
    assert Depth(q) == i + 1;
    if Narrow(Through(routes, q), i + 1, parts, raw, values).Some? {
      var k := NarrowFits(routes, q, i + 1, parts, raw, values);
      PatternUnique(routes, k, j);
      if k == j {
        FewerValues(routes[j].segs, parts, raw, i);
      }
    }
  }

  lemma FewerValues(segs: seq<Segment>, parts: seq<string>, raw: string, i: nat)
    requires i < |segs| && !segs[i].Static? && Matches(segs, parts, i) && Fits(segs, parts, i + 1)
    ensures |Captured(segs, parts, raw, i + 1)| < |Full(segs, parts, raw, i)|
  {
    FitsIsMatches(segs, parts, raw, i + 1);
  }

  /** Neither does one that leaves a wildcard for a parameter. */
  lemma AstrayParam(routes: seq<Route>, j: nat, i: nat, parts: seq<string>, raw: string, values: seq<string>)
    requires ListOk(routes) && j < |routes| && i < |routes[j].segs| && i < |parts| && routes[j].segs[i].Wild?
    ensures var out := Narrow(Through(routes, Under(At(routes[j].segs, i), ":")), i + 1, parts, raw, values);
            out.Some? ==> out.value.pattern != routes[j].pattern
  {
    var q := Under(At(routes[j].segs, i), ":");
    assert Depth(q) == i + 1;
    if Narrow(Through(routes, q), i + 1, parts, raw, values).Some? {
      var k := NarrowFits(routes, q, i + 1, parts, raw, values);
      NotThroughWild(routes, j, i, k);
      PatternUnique(routes, k, j);
    }
  }

  lemma NotThroughWild(routes: seq<Route>, j: nat, i: nat, k: nat)
    requires ListOk(routes) && j < |routes| && i < |routes[j].segs| && routes[j].segs[i].Wild? && k < |routes|
    requires Passes(routes[k].segs, Under(At(routes[j].segs, i), ":"))
    ensures k != j
  {
    StepSegment(routes, At(routes[j].segs, i), ":", k);
  }

  lemma PassesOwn(routes: seq<Route>, j: nat, i: nat)
    requires ListOk(routes) && j < |routes| && i < |routes[j].segs|
    ensures Through(routes, Under(At(routes[j].segs, i), Head(routes[j].segs[i]))) != []
    ensures SegmentOk(routes[j].segs[i])
    ensures At(routes[j].segs, i + 1) == Under(At(routes[j].segs, i), Head(routes[j].segs[i]))
  {
    assert WellFormed(routes[j].segs);
    ThroughMember(routes, At(routes[j].segs, i + 1), j);
  }

  /** The walk from the route's own position comes back with it exactly when nothing shadows it. */
  lemma {:induction false} FollowIff(routes: seq<Route>, j: nat, i: nat, parts: seq<string>, raw: string, values: seq<string>)
    requires ListOk(routes) && j < |routes| && i <= |routes[j].segs| && Matches(routes[j].segs, parts, i)
    ensures Narrow(Through(routes, At(routes[j].segs, i)), i, parts, raw, values) == Target(routes, j, i, parts, raw, values) <==>
            Unshadowed(routes, routes[j].segs, parts, i)
    decreases |routes[j].segs| - i
  {
    var segs := routes[j].segs;
    if i == |segs| {
      EndingIs(routes, j);
      assert values + [] == values;
    } else {
      NarrowThrough(routes, At(segs, i), i, parts, raw, values);
      match segs[i] {
        case Static(_) =>
          FollowIff(routes, j, i + 1, parts, raw, values);
          FollowStatic(routes, j, i, parts, raw, values);
        case Param(_) =>
          FollowIff(routes, j, i + 1, parts, raw, values + [parts[i]]);
          FollowParam(routes, j, i, parts, raw, values);
        case Wild(_) =>
          FollowWild(routes, j, i, parts, raw, values);
      }
    }
  }

  lemma FollowStatic(routes: seq<Route>, j: nat, i: nat, parts: seq<string>, raw: string, values: seq<string>)
    requires ListOk(routes) && j < |routes| && i < |routes[j].segs| && Matches(routes[j].segs, parts, i)
    requires routes[j].segs[i].Static?
    requires (Narrow(Through(routes, At(routes[j].segs, i + 1)), i + 1, parts, raw, values) ==
              Target(routes, j, i + 1, parts, raw, values)) <==> Unshadowed(routes, routes[j].segs, parts, i + 1)
    ensures Onward(routes, At(routes[j].segs, i), i, parts, raw, values) == Target(routes, j, i, parts, raw, values) <==>
            Unshadowed(routes, routes[j].segs, parts, i)
  {
    PassesOwn(routes, j, i);
  }

  lemma FollowParam(routes: seq<Route>, j: nat, i: nat, parts: seq<string>, raw: string, values: seq<string>)
    requires ListOk(routes) && j < |routes| && i < |routes[j].segs| && Matches(routes[j].segs, parts, i)
    requires routes[j].segs[i].Param?
    requires var out := Narrow(Through(routes, At(routes[j].segs, i + 1)), i + 1, parts, raw, values + [parts[i]]);
             out == Target(routes, j, i + 1, parts, raw, values + [parts[i]]) <==>
             Unshadowed(routes, routes[j].segs, parts, i + 1)
    ensures Onward(routes, At(routes[j].segs, i), i, parts, raw, values) == Target(routes, j, i, parts, raw, values) <==>
            Unshadowed(routes, routes[j].segs, parts, i)
  {
    PassesOwn(routes, j, i);
    TargetStep(routes, j, i, parts, raw, values);
    if Through(routes, Under(At(routes[j].segs, i), parts[i])) != [] {
      AstrayExact(routes, j, i, parts, raw, values);
    }
  }

  lemma TargetStep(routes: seq<Route>, j: nat, i: nat, parts: seq<string>, raw: string, values: seq<string>)
    requires j < |routes| && i < |routes[j].segs| && Matches(routes[j].segs, parts, i) && routes[j].segs[i].Param?
    ensures Target(routes, j, i, parts, raw, values) == Target(routes, j, i + 1, parts, raw, values + [parts[i]])
  {
    var rest := Full(routes[j].segs, parts, raw, i + 1);
    assert values + [parts[i]] + rest == values + ([parts[i]] + rest);
  }

  lemma FollowWild(routes: seq<Route>, j: nat, i: nat, parts: seq<string>, raw: string, values: seq<string>)
    requires ListOk(routes) && j < |routes| && i < |routes[j].segs| && Matches(routes[j].segs, parts, i)
    requires routes[j].segs[i].Wild?
    ensures Onward(routes, At(routes[j].segs, i), i, parts, raw, values) == Target(routes, j, i, parts, raw, values) <==>
            Unshadowed(routes, routes[j].segs, parts, i)
  {
    AstrayExact(routes, j, i, parts, raw, values);
    AstrayParam(routes, j, i, parts, raw, values + [parts[i]]);
    PassesOwn(routes, j, i);
    EndingIs(routes, j);
  }

  // Clean values

  /** Values that survive as request segments: no slash in a parameter, none at either end of a wildcard. */
  predicate Clean(segs: seq<Segment>, values: seq<string>) {
    if segs == [] then values == []
    else
      match segs[0]
      case Static(_) => Clean(segs[1..], values)
      case Param(_) => values != [] && values[0] != "" && '/' !in values[0] && Clean(segs[1..], values[1..])
      case Wild(_) => |segs| == 1 && |values| == 1 && values[0] != "" && Bare(values[0])
  }

  ghost predicate SlashFree(segs: seq<Segment>) {
    forall i :: 0 <= i < |segs| && segs[i].Static? ==> segs[i].raw != "" && '/' !in segs[i].raw
  }

  /** The request segments that clean values give. */
  function Spread(segs: seq<Segment>, values: seq<string>): seq<string>
    requires Clean(segs, values)
  {
    if segs == [] then []
    else
      match segs[0]
      case Static(raw) => [raw] + Spread(segs[1..], values)
      case Param(_) => [values[0]] + Spread(segs[1..], values[1..])
      case Wild(_) => Split(values[0], '/')
  }

  ghost predicate NoSlashes(parts: seq<string>) {
    forall i :: 0 <= i < |parts| ==> '/' !in parts[i]
  }

  /** Spreading clean values and joining is substituting and joining; the text is bare. */
  lemma {:induction false} SpreadJoin(segs: seq<Segment>, values: seq<string>)
    requires |segs| >= 1 && SlashFree(segs) && Clean(segs, values)
    ensures |Spread(segs, values)| >= 1 && NoSlashes(Spread(segs, values))
    ensures Join(Spread(segs, values), '/') == Join(Substitute(segs, values), '/')
    ensures Join(Spread(segs, values), '/') != "" && Bare(Join(Spread(segs, values), '/'))
  {
    if segs[0].Wild? {
      JoinSplit(values[0], '/');
      assert Substitute(segs, values) == [values[0]];
    } else {
      var first := if segs[0].Static? then segs[0].raw else values[0];
      var rest := if segs[0].Static? then values else values[1..];
      assert Substitute(segs, values) == [first] + Substitute(segs[1..], rest);
      if |segs| == 1 {
        assert Spread(segs, values) == [first] && Substitute(segs, values) == [first];
      } else {
        SpreadJoin(segs[1..], rest);
        JoinAppend([first], Spread(segs[1..], rest), '/');
        JoinAppend([first], Substitute(segs[1..], rest), '/');
      }
    }
  }

  /** Dispatch sees exactly the spread segments. */
  lemma CleanDispatch(segs: seq<Segment>, values: seq<string>)
    requires |segs| >= 1 && SlashFree(segs) && Clean(segs, values)
    ensures var text := "/" + Join(Substitute(segs, values), '/');
            DispatchPath(text) == text && text != "/" && PathParts(text) == Spread(segs, values)
  {
    SpreadJoin(segs, values);
    var x := Join(Spread(segs, values), '/');
    var text := "/" + x;
    CoreOfBare(x);
    SplitJoin(Spread(segs, values), '/');
    SplittersAgree(text);
  }

  lemma {:induction false} SpreadMatches(segs: seq<Segment>, parts: seq<string>, k: nat, values: seq<string>)
    requires k <= |segs| && SlashFree(segs) && Clean(segs[k..], values)
    requires k <= |parts| && parts[k..] == Spread(segs[k..], values)
    ensures Matches(segs, parts, k) && Full(segs, parts, "/" + Join(parts, '/'), k) == values
    decreases |segs| - k
  {
    if k < |segs| {
      var rest := segs[k..];
      assert rest[0] == segs[k] && rest[1..] == segs[k + 1..];
      assert parts[k..][0] == parts[k];
      if segs[k].Wild? {
        JoinSplit(values[0], '/');
        SplitFirst(values[0]);
        WildcardValue(parts, k);
        assert values == [values[0]];
      } else {
        assert parts[k + 1..] == parts[k..][1..];
        SpreadMatches(segs, parts, k + 1, if segs[k].Static? then values else values[1..]);
      }
    }
  }

  lemma SplitFirst(v: string)
    requires v != "" && v[0] != '/'
    ensures Split(v, '/')[0] != ""
  {
  }

  lemma {:induction false} FullClean(segs: seq<Segment>, parts: seq<string>, k: nat)
    requires k <= |segs| && Matches(segs, parts, k) && |parts| >= 1 && NoSlashes(parts)
    requires Bare(Join(parts, '/'))
    ensures Clean(segs[k..], Full(segs, parts, "/" + Join(parts, '/'), k))
    decreases |segs| - k
  {
    var values := Full(segs, parts, "/" + Join(parts, '/'), k);
    if k < |segs| {
      var rest := segs[k..];
      assert rest[0] == segs[k] && rest[1..] == segs[k + 1..];
      if segs[k].Wild? {
        WildcardValue(parts, k);
        TailIsBare(parts, k);
      } else {
        FullClean(segs, parts, k + 1);
        assert segs[k].Param? ==> values[1..] == Full(segs, parts, "/" + Join(parts, '/'), k + 1);
      }
    }
  }

  lemma TailIsBare(parts: seq<string>, k: nat)
    requires k < |parts| && parts[k] != "" && NoSlashes(parts) && Bare(Join(parts, '/'))
    ensures Bare(Join(parts[k..], '/'))
  {
    var tail := Join(parts[k..], '/');
    assert parts[k..][0] == parts[k];
    assert tail[0] == parts[k][0] && parts[k][0] in parts[k];
    if k == 0 {
      assert parts[0..] == parts;
    } else {
      JoinSplitAt(parts, k);
    }
  }

  // As many values as names

  lemma {:induction false} FullCount(segs: seq<Segment>, parts: seq<string>, raw: string, k: nat)
    requires k <= |segs| && Matches(segs, parts, k)
    ensures |ParamKeys(segs[..k])| + |Full(segs, parts, raw, k)| == |ParamKeys(segs)|
    decreases |segs| - k
  {
    if k == |segs| {
      assert segs[..k] == segs;
    } else {
      ParamKeysStep(segs, k);
      if segs[k].Wild? {
        assert segs[..k + 1] == segs;
      } else {
        FullCount(segs, parts, raw, k + 1);
      }
    }
  }

  /** The supplied values are the values of the names, in order. */
  lemma {:induction false} ValuesByKey(segs: seq<Segment>, vals: map<string, string>)
    requires AllSupplied(segs, vals)
    ensures |ValuesOf(segs, vals)| == |ParamKeys(segs)|
    ensures forall i :: 0 <= i < |ParamKeys(segs)| ==>
                          ParamKeys(segs)[i] in vals && ValuesOf(segs, vals)[i] == vals[ParamKeys(segs)[i]]
  {
    if segs != [] {
      assert Supplied(segs[0], vals);
      ParamKeysCons(segs);
      ValuesByKey(segs[1..], vals);
    }
  }

  // The round trip

  /** The request dispatch sees for a route with values put in. */
  function RequestFor(r: Route, values: seq<string>): string {
    DispatchPath("/" + Join(Substitute(r.segs, values), '/'))
  }

  /** An accepted pattern's text is free of slashes inside and of empty segments. */
  lemma AcceptedSlashFree(r: Route)
    requires Textual(r) && WellFormed(r.segs)
    ensures SlashFree(r.segs)
  {
    if r.pattern != "/" {
      var parts := RouteParts(r.pattern);
      JoinSplit(Core(r.pattern), '/');
      forall i | 0 <= i < |r.segs| && r.segs[i].Static?
        ensures r.segs[i].raw != "" && '/' !in r.segs[i].raw
      {
        assert SegmentOk(r.segs[i]);
        assert r.segs[i] == ParseSegment(parts[i]);
      }
    }
  }

  /** A match that returns the route with one value per name was asked with clean values. */
  lemma MatchedIsClean(routes: seq<Route>, j: nat, path: string, values: seq<string>)
    requires ListOk(routes) && j < |routes| && path == DispatchPath(path) && path[0] == '/'
    requires |values| == |ParamKeys(routes[j].segs)|
    requires GreedyMatch(routes, PathParts(path), path) == Some(ResultOf(routes[j], values))
    ensures Clean(routes[j].segs, values)
  {
    var parts, segs := PathParts(path), routes[j].segs;
    ThroughRoot(routes);
    var k := NarrowFits(routes, Root, 0, parts, path, []);
    PatternUnique(routes, k, j);
    var captured := Captured(segs, parts, path, 0);
    assert [] + captured == captured;
    FitsIsMatches(segs, parts, path, 0);
    FullCount(segs, parts, path, 0);
    assert segs[..0] == [] && segs[0..] == segs;
    if segs != [] {
      CoreIsBare(path);
      SplittersAgree(path);
      JoinSplit(Core(path), '/');
      FullClean(segs, parts, 0);
    }
  }

  /** The tree of the route's own method gives it back exactly when values are clean and unshadowed. */
  lemma TripIff(routes: seq<Route>, j: nat, values: seq<string>)
    requires ListOk(routes) && j < |routes| && |values| == |ParamKeys(routes[j].segs)|
    ensures var path := DispatchPath("/" + Join(Substitute(routes[j].segs, values), '/'));
            && path == DispatchPath(path)
            && (GreedyMatch(routes, PathParts(path), path) == Some(ResultOf(routes[j], values)) <==>
                Clean(routes[j].segs, values) && Unshadowed(routes, routes[j].segs, PathParts(path), 0))
  {
    var segs := routes[j].segs;
    var text := "/" + Join(Substitute(segs, values), '/');
    var path := DispatchPath(text);
    NormalizersIdempotent(text);
    if Clean(segs, values) {
      CleanTrip(routes, j, values);
    } else if GreedyMatch(routes, PathParts(path), path) == Some(ResultOf(routes[j], values)) {
      MatchedIsClean(routes, j, path, values);
    }
  }

  /** The request for clean values has the form of the pattern, with these values. */
  lemma CleanForm(r: Route, values: seq<string>)
    requires Textual(r) && WellFormed(r.segs) && Clean(r.segs, values)
    ensures var path := RequestFor(r, values);
            Matches(r.segs, PathParts(path), 0) && Full(r.segs, PathParts(path), path, 0) == values
  {
    var segs, path := r.segs, RequestFor(r, values);
    var parts := PathParts(path);
    AcceptedSlashFree(r);
    assert segs[0..] == segs && parts[0..] == parts;
    if segs != [] {
      CleanDispatch(segs, values);
      SpreadJoin(segs, values);
      SpreadMatches(segs, parts, 0, values);
    } else {
      assert Substitute(segs, values) == [] && path == "/";
    }
  }

  lemma CleanTrip(routes: seq<Route>, j: nat, values: seq<string>)
    requires ListOk(routes) && j < |routes| && Clean(routes[j].segs, values)
    ensures var path := RequestFor(routes[j], values);
            GreedyMatch(routes, PathParts(path), path) == Some(ResultOf(routes[j], values)) <==>
            Unshadowed(routes, routes[j].segs, PathParts(path), 0)
  {
    var path := RequestFor(routes[j], values);
    assert Textual(routes[j]) && WellFormed(routes[j].segs);
    CleanForm(routes[j], values);
    ThroughRoot(routes);
    FollowIff(routes, j, 0, PathParts(path), path, []);
    assert [] + values == values;
  }

  /** Fallbacks to other methods are told apart by the method of the result. */
  lemma OwnMethod(t: Table, verb: string, path: string, result: MatchResult)
    requires result.routeMethod == verb
    ensures MatchRoute(t, verb, path) == Some(result) <==> MatchIn(t, verb, path) == Some(result)
  {
  }

  function Answer(r: Route, verb: string, values: seq<string>): MatchResult {
    ResultOf(r, values).(routeMethod := verb)
  }

  lemma RouteRoundTrip(t: Table, verb: string, j: nat, values: seq<string>)
    requires TableOk(t) && j < |RoutesOf(t, verb)| && |values| == |ParamKeys(RoutesOf(t, verb)[j].segs)|
    ensures var r, path := RoutesOf(t, verb)[j], RequestFor(RoutesOf(t, verb)[j], values);
            MatchRoute(t, verb, path) == Some(Answer(r, verb, values)) <==>
            Clean(r.segs, values) && Unshadowed(RoutesOf(t, verb), r.segs, PathParts(path), 0)
  {
    var r := RoutesOf(t, verb)[j];
    ListIsOk(t, verb);
    TripIff(RoutesOf(t, verb), j, values);
    OwnMethod(t, verb, RequestFor(r, values), Answer(r, verb, values));
    OwnResult(t, verb, RequestFor(r, values), r, values);
  }

  lemma OwnResult(t: Table, verb: string, path: string, r: Route, values: seq<string>)
    requires ListOk(RoutesOf(t, verb))
    ensures MatchIn(t, verb, path) == Some(Answer(r, verb, values)) <==>
            GreedyMatch(RoutesOf(t, verb), PathParts(path), path) == Some(ResultOf(r, values))
  {
    var routes, parts := RoutesOf(t, verb), PathParts(path);
    if GreedyMatch(routes, parts, path).Some? {
      ThroughRoot(routes);
      var k := NarrowFits(routes, Root, 0, parts, path, []);
      assert GreedyMatch(routes, parts, path).value.routeMethod == "";
    }
  }

  /** A request shorter than the route's own path is never answered with these values. */
  lemma ShorterIsAnother(t: Table, verb: string, j: nat, values: seq<string>, d: string)
    requires TableOk(t) && j < |RoutesOf(t, verb)| && |values| == |ParamKeys(RoutesOf(t, verb)[j].segs)|
    requires d != "" && d[0] == '/' && |d| < |"/" + Join(Substitute(RoutesOf(t, verb)[j].segs, values), '/')|
    ensures MatchRoute(t, verb, DispatchPath(d)) != Some(Answer(RoutesOf(t, verb)[j], verb, values))
  {
    var routes, path := RoutesOf(t, verb), DispatchPath(d);
    var r := routes[j];
    ListIsOk(t, verb);
    assert Textual(r);
    NormalizersIdempotent(d);
    CoreIsNoLonger(d);
    OwnMethod(t, verb, path, Answer(r, verb, values));
    OwnResult(t, verb, path, r, values);
    if GreedyMatch(routes, PathParts(path), path) == Some(ResultOf(r, values)) {
      if path == "/" {
        RootResult(routes);
      } else {
        DispatchParts(path);
        var k := MatchReproducesPath(routes, PathParts(path));
        PatternUnique(routes, k, j);
      }
    }
  }

  lemma CoreIsNoLonger(d: string)
    ensures d != "" && d[0] == '/' ==> |DispatchPath(d)| <= |d|
  {
    TrimsShorten(d);
    TrimsShorten(TrimRight(d, '/'));
    if d != "" && d[0] == '/' && TrimRight(d, '/') != "" {
      TrimRightStart(d);
    }
  }

  lemma {:induction false} TrimsShorten(s: string)
    ensures |TrimLeft(s, '/')| <= |s| && |TrimRight(s, '/')| <= |s|
    ensures s != "" && s[0] == '/' ==> |TrimLeft(s, '/')| < |s|
  {
    if s != "" {
      TrimsShorten(s[1..]);
      TrimsShorten(s[..|s| - 1]);
    }
  }

  lemma {:induction false} TrimRightStart(s: string)
    requires s != "" && TrimRight(s, '/') != ""
    ensures TrimRight(s, '/')[0] == s[0]
  {
    if s[|s| - 1] == '/' {
      TrimRightStart(s[..|s| - 1]);
    }
  }

  /**
   Reverse routing round trip. When a URL can be built for a named route, it decodes and dispatching
   it under the route's method returns this route with exactly the supplied values if and only if
   the pattern's text has no percent sign, the values are clean and nothing shadows the route.
   */
  lemma UrlRoundTrip(t: Table, name: string, vals: map<string, string>) returns (j: nat, values: seq<string>)
    requires TableOk(t) && name in t.named && AllSupplied(PatternSegments(t.named[name].pattern), vals)
    ensures StandsFor(t.named[name], name, RoutesOf(t, t.named[name].verb), j)
    ensures AllSupplied(RoutesOf(t, t.named[name].verb)[j].segs, vals)
    ensures values == ValuesOf(RoutesOf(t, t.named[name].verb)[j].segs, vals)
    ensures var verb, segs := t.named[name].verb, PatternSegments(t.named[name].pattern);
            var r := RoutesOf(t, verb)[j];
            var decoded := Unescape("/" + Join(Render(segs, vals), '/'));
            (decoded.Some? && MatchRoute(t, verb, DispatchPath(decoded.value)) == Some(Answer(r, verb, values))) <==>
            NoPercent(segs) && Clean(r.segs, values) && Unshadowed(RoutesOf(t, verb), r.segs, PathParts(RequestFor(r, values)), 0)
  {
    var n := t.named[name];
    j :| StandsFor(n, name, RoutesOf(t, n.verb), j);
    var r := RoutesOf(t, n.verb)[j];
    ListIsOk(t, n.verb);
    assert Textual(r);
    UrlDecodes(r, vals);
    values := ValuesOf(r.segs, vals);
    ValuesByKey(r.segs, vals);
    var decoded := Unescape("/" + Join(Render(PatternSegments(n.pattern), vals), '/'));
    if NoPercent(PatternSegments(n.pattern)) {
      RouteRoundTrip(t, n.verb, j, values);
    } else if decoded.Some? {
      ShorterIsAnother(t, n.verb, j, values, decoded.value);
    }
  }

  lemma UrlDecodes(r: Route, vals: map<string, string>)
    requires Textual(r) && AllSupplied(PatternSegments(r.pattern), vals)
    ensures AllSupplied(r.segs, vals)
    ensures var decoded := Unescape("/" + Join(Render(PatternSegments(r.pattern), vals), '/'));
            var plain := "/" + Join(Substitute(r.segs, ValuesOf(r.segs, vals)), '/');
            && (NoPercent(PatternSegments(r.pattern)) ==> decoded == Some(plain))
            && (!NoPercent(PatternSegments(r.pattern)) && decoded.Some? ==>
                  decoded.value != "" && decoded.value[0] == '/' && |decoded.value| < |plain|)
  {
    var segs := PatternSegments(r.pattern);
    DecodesIff(segs, vals);
    UnescapeText("/", Join(Render(segs, vals), '/'));
    if r.pattern == "/" {
      assert Core("/") == "" by { CoreOfBare(""); }
      assert segs == [Static("")];
      assert ValuesOf(segs, vals) == [] by { assert segs[1..] == []; }
      assert Substitute(segs, []) == [""] by { assert segs[1..] == []; }
    } else {
      assert segs == r.segs;
    }
  }
}
