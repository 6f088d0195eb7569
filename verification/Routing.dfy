/**
 The router as a value: per-method route lists, named routes, the frozen flag; registration,
 the fallback order of dispatch, and the methods a path allows.
 */
module Routing {
  import opened Text
  import opened Paths
  import opened Patterns
  import opened RouteTable
  import opened MatchLaws

  const METHOD_ANY := "ANY"
  const METHOD_GET := "GET"
  const METHOD_HEAD := "HEAD"

  datatype NamedRoute = NamedRoute(verb: string, pattern: string, paramPos: map<string, int>)

  datatype Table = Table(routes: map<string, seq<Route>>, named: map<string, NamedRoute>, frozen: bool)

  function ListOf(routes: map<string, seq<Route>>, verb: string): seq<Route> {
    if verb in routes then routes[verb] else []
  }

  function RoutesOf(t: Table, verb: string): seq<Route> {
    ListOf(t.routes, verb)
  }

  // Registration

  /** `isHTTPTokenChar`: a token character of section 5.6.2 of RFC 9110. */
  predicate IsTokenChar(b: char) {
    || '0' <= b <= '9' || 'A' <= b <= 'Z' || 'a' <= b <= 'z'
    || b in "!#$%&'*+-.^_`|~"
  }

  /** `validateMethod`: whitespace is never a token character, so the token test decides. */
  predicate ValidMethod(verb: string) {
    verb != "" && forall i :: 0 <= i < |verb| ==> IsTokenChar(verb[i])
  }

  /** `registerNamedRoute`: a name for each capture, with its place among the captures. */
  function ParamPos(keys: seq<string>): map<string, int> {
    if keys == [] then map[] else ParamPos(keys[..|keys| - 1])[keys[|keys| - 1] := |keys| - 1]
  }

  lemma {:induction false} ParamPosKeys(keys: seq<string>)
    ensures forall k :: k in ParamPos(keys) <==> k in keys
    ensures forall k :: k in ParamPos(keys) ==> 0 <= ParamPos(keys)[k] < |keys| && keys[ParamPos(keys)[k]] == k
  {
    if keys != [] {
      var front := keys[..|keys| - 1];
      ParamPosKeys(front);
      assert keys == front + [keys[|keys| - 1]];
    }
  }

  /** What a registration is asked for. */
  datatype Registration = Registration(prefix: string, verb: string, path: string, handler: Option<Handler>, meta: RouteMeta)

  function FullPath(reg: Registration): string {
    JoinedPath(reg.prefix, reg.path)
  }

  function SegmentsOf(reg: Registration): seq<Segment> {
    CompilePathSegments(FullPath(reg))
  }

  datatype AddError =
    | Frozen | BadMethod | NilHandler | BadPath | DuplicateName | BadSegments | ParamNameMismatch | DuplicateRegistration

  /** Why a well-formed pattern is refused beside the accepted ones. */
  ghost function Clash(routes: seq<Route>, segs: seq<Segment>): Option<AddError> {
    if NameConflict(routes, segs) then Some(ParamNameMismatch)
    else if Taken(routes, segs) then Some(DuplicateRegistration)
    else None
  }

  /** Why a registration is refused, in the order the source checks. */
  ghost function Verdict(t: Table, reg: Registration): Option<AddError> {
    var routes, segs := RoutesOf(t, reg.verb), SegmentsOf(reg);
    if t.frozen then Some(Frozen)
    else if !ValidMethod(reg.verb) then Some(BadMethod)
    else if reg.handler.None? then Some(NilHandler)
    else if reg.path != "" && reg.path[0] != '/' then Some(BadPath)
    else if reg.meta.name != "" && reg.meta.name in t.named then Some(DuplicateName)
    else if !WellFormed(segs) then Some(BadSegments)
    else Clash(routes, segs)
  }

  function RouteOf(reg: Registration): Route
    requires reg.handler.Some?
  {
    Route(FullPath(reg), SegmentsOf(reg), reg.handler.value, reg.meta)
  }

  function NamedOf(reg: Registration): NamedRoute {
    NamedRoute(reg.verb, FullPath(reg), ParamPos(ParamKeys(SegmentsOf(reg))))
  }

  /** The table with a route added, under a name unless that is empty. */
  function Extend(t: Table, verb: string, r: Route, n: NamedRoute): Table {
    Table(t.routes[verb := RoutesOf(t, verb) + [r]],
          if r.meta.name == "" then t.named else t.named[r.meta.name := n],
          t.frozen)
  }

  /** The table after an accepted registration. */
  function Accept(t: Table, reg: Registration): Table
    requires reg.handler.Some?
  {
    Extend(t, reg.verb, RouteOf(reg), NamedOf(reg))
  }

  /** The meaning of `AddRoute`: a refused registration leaves the table as it was. */
  ghost function Register(t: Table, reg: Registration): Table {
    if Verdict(t, reg).None? then Accept(t, reg) else t
  }

  /** An accepted route has the text its segments were compiled from. */
  ghost predicate Textual(r: Route) {
    r.pattern == PatternText(r.segs) && r.segs == CompilePathSegments(r.pattern) && r.pattern == CanonicalPath(r.pattern)
  }

  /** The accepted route a named route stands for. */
  ghost predicate StandsFor(n: NamedRoute, name: string, routes: seq<Route>, j: nat) {
    && j < |routes| && routes[j].pattern == n.pattern && routes[j].meta.name == name
    && n.paramPos == ParamPos(ParamKeys(routes[j].segs))
  }

  ghost predicate NamedOk(routes: map<string, seq<Route>>, named: map<string, NamedRoute>) {
    forall name :: name in named ==> exists j :: StandsFor(named[name], name, ListOf(routes, named[name].verb), j)
  }

  ghost predicate ListOk(routes: seq<Route>) {
    Consistent(routes) && forall j {:trigger Textual(routes[j])} :: 0 <= j < |routes| ==> Textual(routes[j])
  }

  ghost predicate RoutesOk(routes: map<string, seq<Route>>) {
    forall m :: m in routes ==> ValidMethod(m) && ListOk(routes[m])
  }

  /** What holds of every table that registrations built. */
  ghost predicate TableOk(t: Table) {
    RoutesOk(t.routes) && NamedOk(t.routes, t.named)
  }

  lemma ListIsOk(t: Table, verb: string)
    requires TableOk(t)
    ensures ListOk(RoutesOf(t, verb))
  {
  }

  const EmptyTable := Table(map[], map[], false)

  lemma EmptyTableOk()
    ensures TableOk(EmptyTable)
  {
  }

  lemma JoinedIsCanonical(prefix: string, path: string)
    ensures JoinedPath(prefix, path) == CanonicalPath(JoinedPath(prefix, path))
  {
    CoreOfJoined(prefix, path);
  }

  lemma RouteIsTextual(reg: Registration)
    requires reg.handler.Some?
    ensures Textual(RouteOf(reg))
  {
    CoreOfJoined(reg.prefix, reg.path);
    CompileRoundTrip(FullPath(reg));
  }

  /** Registration keeps the table sound, whatever is registered. */
  lemma RegisterKeepsOk(t: Table, reg: Registration)
    requires TableOk(t)
    ensures TableOk(Register(t, reg))
  {
    if Verdict(t, reg).None? {
      AcceptKeepsRoutes(t, reg);
      AcceptKeepsNames(t, reg);
    }
  }

  lemma AcceptKeepsRoutes(t: Table, reg: Registration)
    requires RoutesOk(t.routes) && ValidMethod(reg.verb) && reg.handler.Some? && WellFormed(SegmentsOf(reg))
    requires !NameConflict(RoutesOf(t, reg.verb), SegmentsOf(reg)) && !Taken(RoutesOf(t, reg.verb), SegmentsOf(reg))
    ensures RoutesOk(Accept(t, reg).routes)
  {
    AcceptKeepsList(RoutesOf(t, reg.verb), RouteOf(reg));
    RouteIsTextual(reg);
  }

  lemma AcceptKeepsList(routes: seq<Route>, r: Route)
    requires ListOk(routes) && WellFormed(r.segs) && !NameConflict(routes, r.segs) && !Taken(routes, r.segs)
    ensures Textual(r) ==> ListOk(routes + [r])
  {
    AcceptKeepsConsistent(routes, r);
    assert forall j :: 0 <= j < |routes| ==> (routes + [r])[j] == routes[j];
  }

  lemma AcceptKeepsNames(t: Table, reg: Registration)
    requires reg.handler.Some? && NamedOk(t.routes, t.named)
    ensures var t' := Accept(t, reg); NamedOk(t'.routes, t'.named)
  {
    var t' := Accept(t, reg);
    forall name | name in t'.named
      ensures exists j :: StandsFor(t'.named[name], name, RoutesOf(t', t'.named[name].verb), j)
    {
      if name == reg.meta.name && name != "" {
        assert StandsFor(NamedOf(reg), name, RoutesOf(t', reg.verb), |RoutesOf(t, reg.verb)|);
      } else {
        var n := t.named[name];
        var j :| StandsFor(n, name, RoutesOf(t, n.verb), j);
        assert RoutesOf(t, n.verb) <= RoutesOf(t', n.verb);
        assert StandsFor(n, name, RoutesOf(t', n.verb), j);
      }
    }
  }

  /** The table after a sequence of registrations, accepted and refused ones alike. */
  ghost function RegisterAll(regs: seq<Registration>): Table {
    if regs == [] then EmptyTable else Register(RegisterAll(regs[..|regs| - 1]), regs[|regs| - 1])
  }

  lemma {:induction false} EveryTableOk(regs: seq<Registration>)
    ensures TableOk(RegisterAll(regs)) && !RegisterAll(regs).frozen
  {
    if regs == [] {
      EmptyTableOk();
    } else {
      EveryTableOk(regs[..|regs| - 1]);
      RegisterKeepsOk(RegisterAll(regs[..|regs| - 1]), regs[|regs| - 1]);
    }
  }

  /** The registrations of a sequence that were accepted, in order. */
  ghost function AcceptedOf(regs: seq<Registration>): seq<Registration> {
    if regs == [] then []
    else
      var front, last := regs[..|regs| - 1], regs[|regs| - 1];
      AcceptedOf(front) + if Verdict(RegisterAll(front), last).None? then [last] else []
  }

  /** Leaving the refused registrations out gives the same table. */
  lemma {:induction false} RefusalsDropOut(regs: seq<Registration>)
    ensures RegisterAll(AcceptedOf(regs)) == RegisterAll(regs)
    ensures AcceptedOf(AcceptedOf(regs)) == AcceptedOf(regs)
  {
    if regs != [] {
      var front, last := regs[..|regs| - 1], regs[|regs| - 1];
      RefusalsDropOut(front);
      if Verdict(RegisterAll(front), last).None? {
        assert AcceptedOf(regs)[..|AcceptedOf(front)|] == AcceptedOf(front);
      } else {
        assert AcceptedOf(regs) == AcceptedOf(front);
      }
    }
  }

  /** The routes the registrations ask for under a method, in order. */
  function RoutesFor(regs: seq<Registration>, verb: string): seq<Route> {
    if regs == [] then []
    else
      var last := regs[|regs| - 1];
      RoutesFor(regs[..|regs| - 1], verb) + if last.verb == verb && last.handler.Some? then [RouteOf(last)] else []
  }

  lemma RoutesForSnoc(regs: seq<Registration>, last: Registration, verb: string)
    ensures RoutesFor(regs + [last], verb) ==
            RoutesFor(regs, verb) + if last.verb == verb && last.handler.Some? then [RouteOf(last)] else []
  {
    assert (regs + [last])[..|regs|] == regs;
  }

  lemma AcceptListed(t: Table, reg: Registration, verb: string)
    requires reg.handler.Some?
    ensures RoutesOf(Accept(t, reg), verb) == RoutesOf(t, verb) + if reg.verb == verb then [RouteOf(reg)] else []
  {
  }

  /** A method's list is the routes of its accepted registrations, in registration order. */
  lemma {:induction false} ListIsAccepted(regs: seq<Registration>, verb: string)
    ensures RoutesOf(RegisterAll(regs), verb) == RoutesFor(AcceptedOf(regs), verb)
  {
    if regs != [] {
      var front, last := regs[..|regs| - 1], regs[|regs| - 1];
      ListIsAccepted(front, verb);
      if Verdict(RegisterAll(front), last).None? {
        AcceptListed(RegisterAll(front), last, verb);
        RoutesForSnoc(AcceptedOf(front), last, verb);
      } else {
        assert AcceptedOf(regs) == AcceptedOf(front);
      }
    }
  }

  /** An accepted registration carries the name. */
  predicate Carries(regs: seq<Registration>, i: nat, name: string) {
    i < |regs| && name != "" && regs[i].meta.name == name
  }

  /** The name is bound just when a registration carries it, and then to that registration's route. */
  ghost predicate Names(named: map<string, NamedRoute>, regs: seq<Registration>, name: string) {
    && (name in named <==> exists i: nat :: Carries(regs, i, name))
    && forall i: nat :: Carries(regs, i, name) ==> name in named && named[name] == NamedOf(regs[i])
  }

  lemma CarriesEarlier(regs: seq<Registration>, last: Registration, i: nat, name: string)
    ensures Carries(regs + [last], i, name) <==> Carries(regs, i, name) || (i == |regs| && name != "" && last.meta.name == name)
  {
  }

  lemma NamesGrow(named: map<string, NamedRoute>, regs: seq<Registration>, last: Registration, name: string)
    requires Names(named, regs, name) && (last.meta.name == "" || last.meta.name !in named)
    ensures Names(if last.meta.name == "" then named else named[last.meta.name := NamedOf(last)], regs + [last], name)
  {
    forall i: nat
      ensures Carries(regs + [last], i, name) <==> Carries(regs, i, name) || (i == |regs| && name != "" && last.meta.name == name)
    {
      CarriesEarlier(regs, last, i, name);
    }
    if name != "" && last.meta.name == name {
      assert Carries(regs + [last], |regs|, name);
    }
  }

  /** A name stands for the one accepted registration that carries it. */
  lemma {:induction false} NamesAreAccepted(regs: seq<Registration>, name: string)
    ensures Names(RegisterAll(regs).named, AcceptedOf(regs), name)
  {
    if regs != [] {
      var front, last := regs[..|regs| - 1], regs[|regs| - 1];
      NamesAreAccepted(front, name);
      if Verdict(RegisterAll(front), last).None? {
        NamesGrow(RegisterAll(front).named, AcceptedOf(front), last, name);
      } else {
        assert AcceptedOf(regs) == AcceptedOf(front);
      }
    }
  }

  // Refusals

  /** The reason behind each refusal, on its own. */
  ghost predicate Reason(t: Table, reg: Registration, e: AddError) {
    match e
    case Frozen => t.frozen
    case BadMethod => !ValidMethod(reg.verb)
    case NilHandler => reg.handler.None?
    case BadPath => reg.path != "" && reg.path[0] != '/'
    case DuplicateName => reg.meta.name != "" && reg.meta.name in t.named
    case BadSegments => !WellFormed(SegmentsOf(reg))
    case ParamNameMismatch => NameConflict(RoutesOf(t, reg.verb), SegmentsOf(reg))
    case DuplicateRegistration => Taken(RoutesOf(t, reg.verb), SegmentsOf(reg))
  }

  /** The place of each check in the source. */
  function Place(e: AddError): nat {
    match e
    case Frozen => 0
    case BadMethod => 1
    case NilHandler => 2
    case BadPath => 3
    case DuplicateName => 4
    case BadSegments => 5
    case ParamNameMismatch => 6
    case DuplicateRegistration => 7
  }

  /** A refusal names the earliest check whose reason holds; a registration is accepted just when no reason holds. */
  lemma FirstReason(t: Table, reg: Registration)
    ensures match Verdict(t, reg)
            case None => forall e :: !Reason(t, reg, e)
            case Some(e) => Reason(t, reg, e) && forall f :: Place(f) < Place(e) ==> !Reason(t, reg, f)
  {
    forall f
      ensures Verdict(t, reg).None? || Place(f) < Place(Verdict(t, reg).value) ==> !Reason(t, reg, f)
    {
    }
  }

  // Dispatch

  /** Matching in one method's tree. */
  function MatchIn(t: Table, verb: string, path: string): Option<MatchResult> {
    var result := GreedyMatch(RoutesOf(t, verb), PathParts(path), path);
    if result.Some? then Some(result.value.(routeMethod := verb)) else None
  }

  /** `matchRoute`: the method's own routes, for HEAD those of GET, then those of ANY. */
  function MatchRoute(t: Table, verb: string, path: string): Option<MatchResult> {
    var own := if verb != METHOD_ANY then MatchIn(t, verb, path) else None;
    var get := if verb == METHOD_HEAD then MatchIn(t, METHOD_GET, path) else None;
    if own.Some? then own else if get.Some? then get else MatchIn(t, METHOD_ANY, path)
  }

  /** The methods whose routes are asked for a request, in order. */
  function Asked(verb: string): seq<string> {
    if verb == METHOD_ANY then [METHOD_ANY]
    else if verb == METHOD_HEAD then [METHOD_HEAD, METHOD_GET, METHOD_ANY]
    else [verb, METHOD_ANY]
  }

  /** The method's own list, without any fallback, has a route for the path. */
  predicate Answers(t: Table, verb: string, path: string) {
    GreedyMatch(RoutesOf(t, verb), PathParts(path), path).Some?
  }

  /** Entry `k` is the first of the methods whose own list answers. */
  ghost predicate FirstAnswering(t: Table, verbs: seq<string>, path: string, k: nat) {
    k < |verbs| && Answers(t, verbs[k], path) && forall i :: 0 <= i < k ==> !Answers(t, verbs[i], path)
  }

  /** What one method's own list answers, marked with the method. */
  ghost predicate AnswerOf(t: Table, verb: string, path: string, found: MatchResult) {
    var own := GreedyMatch(RoutesOf(t, verb), PathParts(path), path);
    own.Some? && found == own.value.(routeMethod := verb)
  }

  /** The first of the asked methods whose own list answers decides; there is no match just when none answers. */
  ghost predicate FirstDecides(t: Table, asked: seq<string>, path: string, result: Option<MatchResult>) {
    && (result.None? <==> forall i :: 0 <= i < |asked| ==> !Answers(t, asked[i], path))
    && (forall k: nat :: FirstAnswering(t, asked, path, k) ==> result.Some? && AnswerOf(t, asked[k], path, result.value))
  }

  lemma DispatchOrder(t: Table, verb: string, path: string)
    ensures FirstDecides(t, Asked(verb), path, MatchRoute(t, verb, path))
  {
    DispatchMiss(t, verb, path);
    forall k: nat | FirstAnswering(t, Asked(verb), path, k)
      ensures MatchRoute(t, verb, path).Some? && AnswerOf(t, Asked(verb)[k], path, MatchRoute(t, verb, path).value)
    {
      DispatchFirst(t, verb, path, k);
    }
  }

  lemma DispatchFirst(t: Table, verb: string, path: string, k: nat)
    requires FirstAnswering(t, Asked(verb), path, k)
    ensures MatchRoute(t, verb, path).Some? && AnswerOf(t, Asked(verb)[k], path, MatchRoute(t, verb, path).value)
  {
    var asked := Asked(verb);
    assert k > 0 ==> !Answers(t, asked[0], path);
    assert k > 1 ==> !Answers(t, asked[1], path);
  }

  lemma DispatchMiss(t: Table, verb: string, path: string)
    ensures MatchRoute(t, verb, path).None? <==> forall i :: 0 <= i < |Asked(verb)| ==> !Answers(t, Asked(verb)[i], path)
  {
    var asked := Asked(verb);
    if MatchRoute(t, verb, path).Some? {
      assert Answers(t, asked[0], path) || Answers(t, asked[|asked| - 1], path) || (|asked| == 3 && Answers(t, asked[1], path));
    }
  }

  /** HEAD: its own routes, else those of GET, else those of ANY. */
  lemma HeadOrder(t: Table, path: string)
    ensures var found := MatchRoute(t, METHOD_HEAD, path);
            if Answers(t, METHOD_HEAD, path) then found.Some? && AnswerOf(t, METHOD_HEAD, path, found.value)
            else if Answers(t, METHOD_GET, path) then found.Some? && AnswerOf(t, METHOD_GET, path, found.value)
            else if Answers(t, METHOD_ANY, path) then found.Some? && AnswerOf(t, METHOD_ANY, path, found.value)
            else found.None?
  {
  }

  /** A route without segments is the route "/": no names, no values. */
  lemma RootResult(routes: seq<Route>)
    requires ListOk(routes) && GreedyMatch(routes, [], "/").Some?
    ensures var res := GreedyMatch(routes, [], "/").value;
            res.values == [] && res.keys == [] && res.pattern == "/" && res.routeMethod == ""
  {
    ThroughRoot(routes);
    var j := EndingWitness(routes, Root);
    assert routes[j].segs == [];
    assert Textual(routes[j]);
    assert Raws([]) == [];
  }

  // Allowed methods

  /** The methods the Allow list holds: those with a match of their own, and HEAD beside GET. */
  predicate Allowed(t: Table, path: string, verb: string) {
    verb != METHOD_ANY &&
    (MatchIn(t, verb, path).Some? || (verb == METHOD_HEAD && MatchIn(t, METHOD_GET, path).Some?))
  }

  /** When some method misses, the allowed methods are exactly those, ANY aside, that match. */
  lemma AllowedIsMatching(t: Table, path: string, missing: string, verb: string)
    requires MatchRoute(t, missing, path).None?
    ensures Allowed(t, path, verb) <==> verb != METHOD_ANY && MatchRoute(t, verb, path).Some?
  {
  }

  /** Go's `<` between neighbours; with transitivity, sorted and free of repetition. */
  ghost predicate StrictlySorted(s: seq<string>) {
    forall i, j :: 0 <= i < j < |s| ==> Less(s[i], s[j])
  }

  /** `sort.Strings`, as insertion of each element into the sorted rest. */
  function Insert(s: seq<string>, x: string): seq<string> {
    if s == [] || Less(x, s[0]) then [x] + s else [s[0]] + Insert(s[1..], x)
  }

  function Sort(s: seq<string>): seq<string> {
    if s == [] then [] else Insert(Sort(s[1..]), s[0])
  }

  lemma {:induction false} InsertSorted(s: seq<string>, x: string)
    requires StrictlySorted(s) && x !in s
    ensures StrictlySorted(Insert(s, x))
    ensures forall y :: y in Insert(s, x) <==> y == x || y in s
  {
    if s != [] && !Less(x, s[0]) {
      InsertSorted(s[1..], x);
      LessTrichotomy(x, s[0]);
      var rest := Insert(s[1..], x);
      forall j | 0 <= j < |rest|
        ensures Less(s[0], rest[j])
      {
        assert rest[j] in rest;
        if rest[j] != x {
          var k :| 0 <= k < |s[1..]| && s[1..][k] == rest[j];
          assert Less(s[0], s[k + 1]);
        }
      }
      assert s == [s[0]] + s[1..];
    } else if s != [] {
      forall j | 0 <= j < |s|
        ensures Less(x, s[j])
      {
        if j > 0 {
          LessTransitive(x, s[0], s[j]);
        }
      }
    }
  }

  lemma {:induction false} SortSorted(s: seq<string>)
    requires forall i, j :: 0 <= i < j < |s| ==> s[i] != s[j]
    ensures StrictlySorted(Sort(s))
    ensures forall y :: y in Sort(s) <==> y in s
  {
    if s != [] {
      SortSorted(s[1..]);
      assert s == [s[0]] + s[1..];
      InsertSorted(Sort(s[1..]), s[0]);
    }
  }

  /** `appendImplicitHeadMethod`. */
  method AppendImplicitHead(methods: seq<string>) returns (r: seq<string>)
    requires StrictlySorted(methods)
    ensures StrictlySorted(r)
    ensures forall m :: m in r <==> m in methods || (m == METHOD_HEAD && METHOD_GET in methods)
  {
    var hasGet, hasHead := false, false;
    for i := 0 to |methods|
      invariant hasGet <==> METHOD_GET in methods[..i]
      invariant hasHead <==> METHOD_HEAD in methods[..i]
    {
      assert methods[..i + 1] == methods[..i] + [methods[i]];
      if methods[i] == METHOD_GET {
        hasGet := true;
      } else if methods[i] == METHOD_HEAD {
        hasHead := true;
      }
    }
    assert methods[..|methods|] == methods;
    if !hasGet || hasHead {
      return methods;
    }
    var all := methods + [METHOD_HEAD];
    forall i, j | 0 <= i < j < |all|
      ensures all[i] != all[j]
    {
      if j < |methods| {
        LessTrichotomy(all[i], all[j]);
      }
    }
    SortSorted(all);
    r := Sort(all);
  }
}
