/**
 The router state in memory: one trie per method, the route listing, the named routes and the
 frozen flag, proved against the table of `Routing`.
 */
module Router {
  import opened Text
  import opened Paths
  import opened Patterns
  import opened RouteTable
  import opened PathMap
  import opened Trie
  import opened Routing

  /** An entry of the route listing. */
  datatype RouteInfo = RouteInfo(verb: string, path: string, meta: RouteMeta)

  function Listing(verb: string, routes: seq<Route>): (infos: seq<RouteInfo>)
    ensures |infos| == |routes|
  {
    seq(|routes|, i requires 0 <= i < |routes| => RouteInfo(verb, routes[i].pattern, routes[i].meta))
  }

  lemma ListingAppend(verb: string, routes: seq<Route>, r: Route)
    ensures Listing(verb, routes + [r]) == Listing(verb, routes) + [RouteInfo(verb, r.pattern, r.meta)]
  {
  }

  ghost predicate Listed(listing: map<string, seq<RouteInfo>>, routes: map<string, seq<Route>>) {
    listing.Keys == routes.Keys && forall m :: m in listing ==> listing[m] == Listing(m, routes[m])
  }

  lemma ListedGrows(listing: map<string, seq<RouteInfo>>, routes: map<string, seq<Route>>, verb: string, r: Route)
    requires Listed(listing, routes)
    ensures var before := if verb in listing then listing[verb] else [];
            Listed(listing[verb := before + [RouteInfo(verb, r.pattern, r.meta)]], routes[verb := ListOf(routes, verb) + [r]])
  {
    ListingAppend(verb, ListOf(routes, verb), r);
  }

  /** A tree of the forest is sound and holds the routes of its method. */
  ghost predicate Tended(tree: Tree, routes: seq<Route>, repr: set<object>)
    requires tree in repr
    reads repr
  {
    tree.nodes <= repr && forall k {:trigger Look(k)} :: Look(k) ==> tree.Valid() && tree.routes == routes
  }

  /** Mentioned where a proof has to look inside a tended tree; elsewhere it stays a black box. */
  ghost predicate Look(k: int) {
    true
  }

  /** The trees are sound, disjoint, and hold the accepted routes of their methods. */
  ghost predicate Forest(trees: map<string, Tree>, routes: map<string, seq<Route>>, repr: set<object>)
    reads repr
  {
    && (forall m {:trigger trees[m]} :: m in trees ==> trees[m] in repr && Tended(trees[m], ListOf(routes, m), repr))
    && (forall m, n {:trigger trees[m], trees[n]} :: m in trees && n in trees && m != n ==>
                                                       trees[m] != trees[n] && trees[m].nodes !! trees[n].nodes)
  }

  lemma ForestGrows(trees: map<string, Tree>, routes: map<string, seq<Route>>, repr: set<object>, verb: string, tree: Tree)
    requires Forest(trees, routes, repr) && verb !in trees && tree !in repr && tree.nodes !! repr
    requires tree.Valid() && tree.routes == ListOf(routes, verb)
    ensures Forest(trees[verb := tree], routes, repr + {tree} + tree.nodes)
  {
  }

  function Planted(routes: map<string, seq<Route>>, verb: string, err: Option<InsertError>, r: Route): map<string, seq<Route>> {
    if err.Some? then routes else routes[verb := ListOf(routes, verb) + [r]]
  }

  /** Every tree but one is tended and apart from that one. */
  ghost predicate OthersTended(trees: map<string, Tree>, routes: map<string, seq<Route>>, repr: set<object>, verb: string)
    requires verb in trees && trees[verb] in repr
    reads repr
  {
    && (forall m {:trigger trees[m]} :: m in trees && m != verb ==>
          trees[m] in repr && Tended(trees[m], ListOf(routes, m), repr)
          && trees[m] != trees[verb] && trees[m].nodes !! trees[verb].nodes)
    && (forall m, n {:trigger trees[m], trees[n]} :: m in trees && n in trees && m != n && m != verb && n != verb ==>
          trees[m] in repr && trees[n] in repr && trees[m] != trees[n] && trees[m].nodes !! trees[n].nodes)
  }

  /** Runs `Insert` on one tree of a forest. */
  method Graft(trees: map<string, Tree>, ghost routes: map<string, seq<Route>>, ghost repr: set<object>, verb: string,
               segs: seq<Segment>, full: string, handler: Handler, meta: RouteMeta)
    returns (err: Option<InsertError>)
    requires verb in trees && Forest(trees, routes, repr) && WellFormed(segs) && HeadsOk(segs)
    modifies repr
    ensures fresh(trees[verb].nodes - repr) && trees[verb].Valid()
    ensures err == (if NameConflict(ListOf(routes, verb), segs) then Some(NameMismatch)
                    else if Taken(ListOf(routes, verb), segs) then Some(DuplicateRoute) else None)
    ensures trees[verb].routes == ListOf(Planted(routes, verb, err, Route(full, segs, handler, meta)), verb)
    ensures OthersTended(trees, routes, repr, verb)
  {
    var tree := trees[verb];
    assert Look(0);
    err := tree.Insert(segs, full, handler, meta);
    forall m | m in trees && m != verb
      ensures trees[m] != tree && trees[m].nodes == old(trees[m].nodes)
      ensures Tended(trees[m], ListOf(routes, m), repr) && trees[m].nodes !! tree.nodes
    {
      assert trees[m] != tree;
    }
  }

  /** After one tree took in a route, the forest holds the routes with that one added. */
  lemma ForestReplanted(trees: map<string, Tree>, before: map<string, seq<Route>>, after: map<string, seq<Route>>,
                        repr: set<object>, verb: string)
    requires verb in trees && trees[verb] in repr && OthersTended(trees, before, repr, verb)
    requires trees[verb].Valid() && trees[verb].routes == ListOf(after, verb)
    requires forall m :: m != verb ==> ListOf(after, m) == ListOf(before, m)
    ensures Forest(trees, after, repr + trees[verb].nodes)
  {
    forall m | m in trees
      ensures Tended(trees[m], ListOf(after, m), repr + trees[verb].nodes)
    {
    }
  }

  /** The static segments of a registration start with an ASCII byte. */
  predicate AsciiHeads(reg: Registration) {
    var segs := SegmentsOf(reg);
    forall i :: 0 <= i < |segs| && segs[i].Static? && segs[i].raw != "" ==> segs[i].raw[0] < 128 as char
  }

  lemma AsciiIsHeadsOk(reg: Registration)
    requires AsciiHeads(reg)
    ensures WellFormed(SegmentsOf(reg)) ==> HeadsOk(SegmentsOf(reg))
  {
    if WellFormed(SegmentsOf(reg)) {
      HeadsOkIff(SegmentsOf(reg));
    }
  }

  class Router {
    var trees: map<string, Tree>
    var listing: map<string, seq<RouteInfo>>
    var namedRoutes: map<string, NamedRoute>
    var frozen: bool
    ghost var table: Table
    ghost var repr: set<object>

    /** Named routes, listing and flag say what the table says. */
    ghost predicate Books()
      reads this
    {
      table.named == namedRoutes && table.frozen == frozen && table.routes.Keys <= trees.Keys && Listed(listing, table.routes)
    }

    ghost predicate Valid()
      reads this, repr
    {
      this !in repr && Forest(trees, table.routes, repr) && TableOk(table) && Books()
    }

    constructor ()
      ensures Valid() && fresh(repr) && table == EmptyTable
    {
      trees, listing, namedRoutes, frozen := map[], map[], map[], false;
      table, repr := EmptyTable, {};
      new;
      EmptyTableOk();
    }

    /** `Freeze`: no registration is accepted afterwards. */
    method Freeze()
      requires Valid()
      modifies this`frozen, this`table
      ensures Valid() && table == old(table).(frozen := true)
    {
      frozen := true;
      table := table.(frozen := true);
    }

    /** The tree of a method, created empty if it has none yet. */
    method EnsureTree(verb: string)
      requires this !in repr && Forest(trees, table.routes, repr) && table.routes.Keys <= trees.Keys
      modifies this`trees, this`repr
      ensures this !in repr && Forest(trees, table.routes, repr) && fresh(repr - old(repr)) && old(repr) <= repr
      ensures trees.Keys == old(trees).Keys + {verb}
    {
      if verb !in trees {
        var t := new Tree();
        ForestGrows(trees, table.routes, repr, verb, t);
        repr := repr + {t} + t.nodes;
        trees := trees[verb := t];
      }
    }

    /** The checks of `AddRoute` that need no pattern. */
    method Screen(reg: Registration) returns (err: Option<AddError>)
      requires Books()
      ensures err.Some? ==> err == Verdict(table, reg)
      ensures err.None? ==> !table.frozen && ValidMethod(reg.verb) && reg.handler.Some?
      ensures err.None? ==> (reg.path == "" || reg.path[0] == '/') && (reg.meta.name == "" || reg.meta.name !in table.named)
    {
      if frozen { return Some(Frozen); }
      if !ValidMethod(reg.verb) { return Some(BadMethod); }
      if reg.handler.None? { return Some(NilHandler); }
      if reg.path != "" && reg.path[0] != '/' { return Some(BadPath); }
      if reg.meta.name != "" && reg.meta.name in namedRoutes { return Some(DuplicateName); }
      return None;
    }

    /** `AddRoute`: refuses or accepts as the table says, and changes what the table changes. */
    method AddRoute(reg: Registration) returns (err: Option<AddError>)
      requires Valid()
      requires AsciiHeads(reg)
      modifies this, repr
      ensures Valid() && fresh(repr - old(repr))
      ensures err == Verdict(old(table), reg)
      ensures table == Register(old(table), reg)
    {
      err := Screen(reg);
      if err.None? {
        RegisterKeepsOk(table, reg);
        AsciiIsHeadsOk(reg);
        err := Settle(reg);
      }
    }

    /** What `AddRoute` does once the registration passed the screening. */
    method Settle(reg: Registration) returns (err: Option<AddError>)
      requires this !in repr && Forest(trees, table.routes, repr) && Books() && reg.handler.Some?
      requires WellFormed(SegmentsOf(reg)) ==> HeadsOk(SegmentsOf(reg))
      modifies this, repr
      ensures this !in repr && Forest(trees, table.routes, repr) && Books()
      ensures fresh(repr - old(repr))
      ensures err == if !WellFormed(SegmentsOf(reg)) then Some(BadSegments)
                     else Clash(RoutesOf(old(table), reg.verb), SegmentsOf(reg))
      ensures table == if err.None? then Accept(old(table), reg) else old(table)
    {
      EnsureTree(reg.verb);
      var full, segs, ok := Compile(reg);
      if !ok {
        return Some(BadSegments);
      }
      err := Commit(reg, segs, full);
    }

    /** The full path of a registration, its segments, and whether they are valid. */
    method Compile(reg: Registration) returns (full: string, segs: seq<Segment>, ok: bool)
      ensures full == FullPath(reg) && segs == SegmentsOf(reg) && ok == WellFormed(segs)
    {
      full := JoinRoutePath(reg.prefix, reg.path);
      segs := CompilePathSegments(full);
      CompiledSegments(full);
      var bad := ValidateRouteSegments(segs);
      ok := bad.None?;
    }

    /** The part of `AddRoute` that reaches the trie. */
    method Commit(reg: Registration, segs: seq<Segment>, full: string) returns (err: Option<AddError>)
      requires this !in repr && Forest(trees, table.routes, repr) && Books() && reg.verb in trees && reg.handler.Some?
      requires segs == SegmentsOf(reg) && full == FullPath(reg) && WellFormed(segs) && HeadsOk(segs)
      modifies this, repr
      ensures this !in repr && Forest(trees, table.routes, repr) && Books()
      ensures fresh(repr - old(repr)) && old(repr) <= repr
      ensures err == Clash(RoutesOf(old(table), reg.verb), segs)
      ensures table == if err.None? then Accept(old(table), reg) else old(table)
    {
      var e := Plant(reg.verb, segs, full, reg.handler.value, reg.meta);
      if e.Some? {
        return Some(if e.value.NameMismatch? then ParamNameMismatch else DuplicateRegistration);
      }
      Enlist(reg, full);
      err := None;
    }

    /** Inserts into the tree of the method; the other trees stay as they are. */
    method Plant(verb: string, segs: seq<Segment>, full: string, handler: Handler, meta: RouteMeta)
      returns (err: Option<InsertError>)
      requires this !in repr && Forest(trees, table.routes, repr) && verb in trees && WellFormed(segs) && HeadsOk(segs)
      modifies this`repr, repr
      ensures this !in repr && fresh(repr - old(repr)) && old(repr) <= repr
      ensures err == (if NameConflict(RoutesOf(table, verb), segs) then Some(NameMismatch)
                      else if Taken(RoutesOf(table, verb), segs) then Some(DuplicateRoute) else None)
      ensures Forest(trees, Planted(table.routes, verb, err, Route(full, segs, handler, meta)), repr)
    {
      err := Graft(trees, table.routes, repr, verb, segs, full, handler, meta);
      ForestReplanted(trees, table.routes, Planted(table.routes, verb, err, Route(full, segs, handler, meta)), repr, verb);
      repr := repr + trees[verb].nodes;
    }

    /** The bookkeeping of `finalizeRouteRegistrationLocked`: named routes and the listing. */
    method Enlist(reg: Registration, full: string)
      requires full == FullPath(reg) && reg.handler.Some? && reg.verb in trees && Books()
      modifies this`namedRoutes, this`listing, this`table
      ensures Books() && table == Accept(old(table), reg)
    {
      var named := NamedRoute(reg.verb, full, map[]);
      if reg.meta.name != "" {
        JoinedIsCanonical(reg.prefix, reg.path);
        var pos := ParamPositions(full);
        named := NamedRoute(reg.verb, full, pos);
      }
      Record(reg.verb, full, reg.meta, named, RouteOf(reg), NamedOf(reg));
    }

    method Record(verb: string, full: string, meta: RouteMeta, named: NamedRoute, ghost r: Route, ghost n: NamedRoute)
      requires Books() && verb in trees && r.pattern == full && r.meta == meta && (meta.name != "" ==> named == n)
      modifies this`namedRoutes, this`listing, this`table
      ensures Books() && table == Extend(old(table), verb, r, n)
    {
      if meta.name != "" {
        namedRoutes := namedRoutes[meta.name := named];
      }
      List(verb, full, meta, r);
      table := Extend(table, verb, r, n);
    }

    /** Appends to the listing of a method. */
    method List(verb: string, full: string, meta: RouteMeta, ghost r: Route)
      requires Listed(listing, table.routes) && r.pattern == full && r.meta == meta
      modifies this`listing
      ensures Listed(listing, table.routes[verb := RoutesOf(table, verb) + [r]])
    {
      ListedGrows(listing, table.routes, verb, r);
      var before := if verb in listing then listing[verb] else [];
      listing := listing[verb := before + [RouteInfo(verb, full, meta)]];
    }

    /** One method's tree asked for a path: its root handler for "/", `matchNode` otherwise. */
    method MatchTree(verb: string, path: string, parts: seq<string>) returns (result: Option<MatchResult>)
      requires Valid() && path == DispatchPath(path) && parts == PathParts(path)
      ensures result == MatchIn(table, verb, path)
    {
      if verb !in trees {
        NoRoutesNoMatch(parts, path);
        return None;
      }
      var tree := trees[verb];
      assert Look(0);
      if path == "/" {
        tree.RootEndpoint();
        if tree.root.handler.None? {
          return None;
        }
        ListIsOk(table, verb);
        RootResult(tree.routes);
        return Some(MatchResult(tree.root.handler.value, [], [], "/", verb, tree.root.routeName));
      }
      DispatchParts(path);
      result := tree.MatchNode(parts, path);
      if result.Some? {
        result := Some(result.value.(routeMethod := verb));
      }
    }

    /** `matchRoute`. */
    method MatchRequest(verb: string, path: string) returns (result: Option<MatchResult>)
      requires Valid() && path == DispatchPath(path)
      ensures result == MatchRoute(table, verb, path) && FirstDecides(table, Asked(verb), path, result)
    {
      DispatchOrder(table, verb, path);
      var parts := SplitPathToParts(path);
      if verb != METHOD_ANY {
        result := MatchTree(verb, path, parts);
        if result.Some? {
          return;
        }
      }
      if verb == METHOD_HEAD {
        result := MatchTree(METHOD_GET, path, parts);
        if result.Some? {
          return;
        }
      }
      result := MatchTree(METHOD_ANY, path, parts);
    }

    /** The methods other than ANY whose tree matches the path; trees are visited in any order. */
    method MatchingMethods(path: string) returns (found: seq<string>)
      requires Valid() && path == DispatchPath(path)
      ensures forall m :: m in found <==> m in trees && m != METHOD_ANY && MatchIn(table, m, path).Some?
      ensures forall i, j :: 0 <= i < j < |found| ==> found[i] != found[j]
    {
      var parts := SplitPathToParts(path);
      var left := trees.Keys;
      found := [];
      ghost var hits := set m | m in trees && m != METHOD_ANY && MatchIn(table, m, path).Some?;
      while left != {}
        invariant left <= trees.Keys
        invariant forall m :: m in found <==> m in hits && m !in left
        invariant forall i, j :: 0 <= i < j < |found| ==> found[i] != found[j]
        decreases left
      {
        var verb :| verb in left;
        left := left - {verb};
        if verb != METHOD_ANY {
          var result := MatchTree(verb, path, parts);
          if result.Some? {
            found := found + [verb];
          }
        }
      }
    }

    /** `allowedMethods`: sorts the matching methods and adds HEAD beside GET. */
    method AllowedMethods(path: string) returns (allowed: seq<string>)
      requires Valid() && path == DispatchPath(path)
      ensures StrictlySorted(allowed)
      ensures forall m :: m in allowed <==> Allowed(table, path, m)
    {
      var found := MatchingMethods(path);
      NoRoutesNoMatch(PathParts(path), path);
      SortSorted(found);
      allowed := AppendImplicitHead(Sort(found));
    }
  }

  lemma ParamPosSnoc(keys: seq<string>, key: string)
    ensures ParamPos(keys + [key]) == ParamPos(keys)[key := |keys|]
  {
    assert (keys + [key])[..|keys|] == keys;
  }

  /** The parts of "/" are one empty text, which names nothing. */
  lemma PatternKeys(pattern: string, parts: seq<string>, segs: seq<Segment>)
    requires pattern == CanonicalPath(pattern) && parts == RouteParts(pattern)
    requires |segs| == |parts| && forall i :: 0 <= i < |parts| ==> segs[i] == ParseSegment(parts[i])
    ensures ParamKeys(segs) == ParamKeys(CompilePathSegments(pattern))
  {
    if pattern == "/" {
      assert Core("/") == "" by { CoreOfBare(""); }
      assert segs == [Static("")];
      assert segs[..0] == [];
    } else {
      assert segs == CompilePathSegments(pattern);
    }
  }

  /** The loop of `registerNamedRoute` over the parts of the pattern. */
  method ParamPositions(pattern: string) returns (pos: map<string, int>)
    requires pattern == CanonicalPath(pattern)
    ensures pos == ParamPos(ParamKeys(CompilePathSegments(pattern)))
  {
    var parts := RouteParts(pattern);
    ghost var segs := seq(|parts|, i requires 0 <= i < |parts| => ParseSegment(parts[i]));
    pos := map[];
    var n := 0;
    for i := 0 to |parts|
      invariant n == |ParamKeys(segs[..i])| && pos == ParamPos(ParamKeys(segs[..i]))
    {
      ParamKeysStep(segs, i);
      var part := parts[i];
      if part != "" && (part[0] == ':' || part[0] == '*') {
        ParamPosSnoc(ParamKeys(segs[..i]), part[1..]);
        pos := pos[part[1..] := n];
        n := n + 1;
      } else {
        assert ParamKeys(segs[..i]) + [] == ParamKeys(segs[..i]);
      }
    }
    assert segs[..|segs|] == segs;
    PatternKeys(pattern, parts, segs);
  }

  // Sequences of registrations

  /** A router after a sequence of registrations, and those of them it accepted. */
  method Build(regs: seq<Registration>) returns (r: Router, accepted: seq<Registration>)
    requires forall i :: 0 <= i < |regs| ==> AsciiHeads(regs[i])
    ensures fresh(r) && r.Valid() && r.table == RegisterAll(regs) && accepted == AcceptedOf(regs)
  {
    r := new Router();
    accepted := [];
    for i := 0 to |regs|
      invariant fresh(r) && fresh(r.repr) && r.Valid()
      invariant r.table == RegisterAll(regs[..i]) && accepted == AcceptedOf(regs[..i])
    {
      assert regs[..i + 1][..i] == regs[..i];
      var err := r.AddRoute(regs[i]);
      accepted := accepted + if err.None? then [regs[i]] else [];
    }
    assert regs[..|regs|] == regs;
  }

  /** Sorted lists without repetition are equal when they have the same members. */
  lemma {:induction false} SortedUnique(a: seq<string>, b: seq<string>)
    requires StrictlySorted(a) && StrictlySorted(b) && forall m :: m in a <==> m in b
    ensures a == b
  {
    assert a == [] <==> b == [] by {
      assert a != [] ==> a[0] in b;
      assert b != [] ==> b[0] in a;
    }
    if a != [] {
      SameFirst(a, b);
      forall m
        ensures m in a[1..] <==> m in b[1..]
      {
        RestMember(a, m);
        RestMember(b, m);
      }
      SortedUnique(a[1..], b[1..]);
      assert a == [a[0]] + a[1..] && b == [b[0]] + b[1..];
    }
  }

  lemma SameFirst(a: seq<string>, b: seq<string>)
    requires a != [] && b != [] && StrictlySorted(a) && StrictlySorted(b) && forall m :: m in a <==> m in b
    ensures a[0] == b[0]
  {
    assert a[0] in b && b[0] in a;
    var i :| 0 <= i < |b| && b[i] == a[0];
    var j :| 0 <= j < |a| && a[j] == b[0];
    LessTrichotomy(a[0], b[0]);
  }

  lemma RestMember(a: seq<string>, m: string)
    requires a != [] && StrictlySorted(a)
    ensures m in a[1..] <==> m in a && m != a[0]
  {
    assert a == [a[0]] + a[1..];
    if m in a[1..] {
      var i :| 0 <= i < |a[1..]| && a[1..][i] == m;
      assert Less(a[0], a[i + 1]);
      LessTrichotomy(a[0], m);
    }
  }

  /** What a caller can ask a router about a method and a path. */
  method Ask(r: Router, verb: string, path: string) returns (found: Option<MatchResult>, allowed: seq<string>)
    requires r.Valid() && path == DispatchPath(path)
    ensures found == MatchRoute(r.table, verb, path)
    ensures StrictlySorted(allowed) && forall m :: m in allowed <==> Allowed(r.table, path, m)
  {
    found := r.MatchRequest(verb, path);
    allowed := r.AllowedMethods(path);
  }

  /** Books of equal tables are equal. */
  lemma SameBooks(r: Router, other: Router)
    requires r.Books() && other.Books() && r.table == other.table
    ensures r.namedRoutes == other.namedRoutes && r.listing == other.listing && r.frozen == other.frozen
  {
  }

  /** A router for a sequence of registrations, and one for the accepted ones alone. */
  method BuildBoth(regs: seq<Registration>) returns (all: Router, lean: Router)
    requires forall i :: 0 <= i < |regs| ==> AsciiHeads(regs[i])
    ensures all.Valid() && all.table == RegisterAll(regs)
    ensures lean.Valid() && lean.table == RegisterAll(AcceptedOf(regs))
  {
    var accepted;
    all, accepted := Build(regs);
    AcceptedAscii(regs);
    lean, accepted := Build(accepted);
  }

  lemma {:induction false} AcceptedAscii(regs: seq<Registration>)
    requires forall i :: 0 <= i < |regs| ==> AsciiHeads(regs[i])
    ensures forall i :: 0 <= i < |AcceptedOf(regs)| ==> AsciiHeads(AcceptedOf(regs)[i])
  {
    if regs != [] {
      AcceptedAscii(regs[..|regs| - 1]);
    }
  }

  /**
   Refused registrations leave no trace. A router that took in a sequence of registrations and one
   that took in only the accepted ones answer every method and path alike, list the same allowed
   methods, and hold the same named routes and listing.
   */
  method RefusalsLeaveNoTrace(regs: seq<Registration>, verb: string, path: string)
    returns (all: Router, lean: Router, found: Option<MatchResult>, leanFound: Option<MatchResult>,
             allowed: seq<string>, leanAllowed: seq<string>)
    requires (forall i :: 0 <= i < |regs| ==> AsciiHeads(regs[i])) && path == DispatchPath(path)
    ensures all.table == RegisterAll(regs) && lean.table == RegisterAll(AcceptedOf(regs))
    ensures found == MatchRoute(all.table, verb, path) && forall m :: m in allowed <==> Allowed(all.table, path, m)
    ensures found == leanFound && allowed == leanAllowed
    ensures all.namedRoutes == lean.namedRoutes && all.listing == lean.listing
  {
    all, lean := BuildBoth(regs);
    RefusalsDropOut(regs);
    found, allowed := Ask(all, verb, path);
    leanFound, leanAllowed := Ask(lean, verb, path);
    SortedUnique(allowed, leanAllowed);
    SameBooks(all, lean);
  }
}
