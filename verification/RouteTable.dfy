/**
 The trie-free meaning of routing.

 A method's routes are a list in registration order. Matching narrows that list one request
 segment at a time and never goes back: the routes whose next head equals the segment, else
 the parameter routes, else the wildcard. Registration accepts a pattern when no accepted one
 has the same heads and none that shares a capturing prefix names the capture differently.
 */
module RouteTable {
  import opened Text
  import opened Patterns

  datatype Handler = Handler(id: nat)

  datatype RouteMeta = RouteMeta(name: string, tags: seq<string>)

  /** An accepted route. */
  datatype Route = Route(pattern: string, segs: seq<Segment>, handler: Handler, meta: RouteMeta)

  datatype MatchResult = MatchResult(
    handler: Handler, values: seq<string>, keys: seq<string>, pattern: string, routeMethod: string, routeName: string)

  function ResultOf(r: Route, values: seq<string>): MatchResult {
    MatchResult(r.handler, values, ParamKeys(r.segs), r.pattern, "", r.meta.name)
  }

  /** The routes that have head `h` at position `i`, in order. */
  function Keep(cands: seq<Route>, i: nat, h: string): seq<Route> {
    if cands == [] then []
    else
      var r := cands[|cands| - 1];
      Keep(cands[..|cands| - 1], i, h) + if i < |r.segs| && Head(r.segs[i]) == h then [r] else []
  }

  /** The route among the candidates that has exactly `n` segments. */
  function Ending(cands: seq<Route>, n: nat): Option<Route> {
    if cands == [] then None
    else
      var r := cands[|cands| - 1];
      var before := Ending(cands[..|cands| - 1], n);
      if before.Some? then before else if |r.segs| == n then Some(r) else None
  }

  function Finish(cands: seq<Route>, n: nat, values: seq<string>): Option<MatchResult> {
    var r := Ending(cands, n);
    if r.Some? then Some(ResultOf(r.value, values)) else None
  }

  /** The byte offset of part `i` in a path with one leading slash. */
  function Offset(parts: seq<string>, i: nat): nat
    requires i <= |parts|
  {
    if i == 0 then 1 else Offset(parts, i - 1) + |parts[i - 1]| + 1
  }

  /** A path and its parts as dispatch hands them to the matcher. */
  ghost predicate Dispatchable(parts: seq<string>, raw: string) {
    |parts| >= 1 && (raw == "/" + Join(parts, '/') || raw == Join(parts, '/'))
  }

  lemma {:induction false} JoinLength(parts: seq<string>)
    requires |parts| >= 1
    ensures |Join(parts, '/')| + 2 == Offset(parts, |parts|)
  {
    if |parts| > 1 {
      var front := parts[..|parts| - 1];
      JoinLength(front);
      assert parts == front + [parts[|parts| - 1]];
      JoinAppend(front, [parts[|parts| - 1]], '/');
      OffsetPrefix(parts, |front|);
    }
  }

  lemma {:induction false} OffsetPrefix(parts: seq<string>, i: nat)
    requires i <= |parts|
    ensures Offset(parts[..i], i) == Offset(parts, i)
    decreases i
  {
    if i > 0 {
      OffsetPrefix(parts, i - 1);
      OffsetPrefix(parts[..i], i - 1);
      assert parts[..i][..i - 1] == parts[..i - 1];
    }
  }

  lemma {:induction false} OffsetMonotone(parts: seq<string>, i: nat, j: nat)
    requires i <= j <= |parts|
    ensures Offset(parts, i) + j - i <= Offset(parts, j)
  {
    if i < j {
      OffsetMonotone(parts, i, j - 1);
    }
  }

  /** The slice at a non-empty part is always within the path. */
  lemma OffsetWithin(parts: seq<string>, raw: string, i: nat)
    requires Dispatchable(parts, raw) && i < |parts| && parts[i] != ""
    ensures Offset(parts, i) <= |raw|
  {
    JoinLength(parts);
    OffsetMonotone(parts, i + 1, |parts|);
  }

  function Suffix(s: string, from: nat): string {
    if from <= |s| then s[from..] else ""
  }

  /** Greedy narrowing from position `i` on, without ever returning to a dropped candidate. */
  function Narrow(cands: seq<Route>, i: nat, parts: seq<string>, raw: string, values: seq<string>): Option<MatchResult>
    requires i <= |parts|
    decreases |parts| - i
  {
    if i == |parts| then Finish(cands, i, values)
    else if parts[i] == "" then None
    else
      var exact := Keep(cands, i, parts[i]);
      if exact != [] then Narrow(exact, i + 1, parts, raw, values)
      else
        var params := Keep(cands, i, ":");
        if params != [] then Narrow(params, i + 1, parts, raw, values + [parts[i]])
        else Finish(Keep(cands, i, "*"), i + 1, values + [Suffix(raw, Offset(parts, i))])
  }

  /** One narrowing step. */
  lemma NarrowStep(cands: seq<Route>, i: nat, parts: seq<string>, raw: string, values: seq<string>)
    requires i < |parts| && parts[i] != ""
    ensures Narrow(cands, i, parts, raw, values) ==
            if Keep(cands, i, parts[i]) != [] then Narrow(Keep(cands, i, parts[i]), i + 1, parts, raw, values)
            else if Keep(cands, i, ":") != [] then Narrow(Keep(cands, i, ":"), i + 1, parts, raw, values + [parts[i]])
            else Finish(Keep(cands, i, "*"), i + 1, values + [Suffix(raw, Offset(parts, i))])
  {
  }

  /** The meaning of `matchNode` on a method whose accepted routes are `routes`. */
  function GreedyMatch(routes: seq<Route>, parts: seq<string>, raw: string): Option<MatchResult> {
    Narrow(routes, 0, parts, raw, [])
  }

  lemma NoRoutesNoMatch(parts: seq<string>, raw: string)
    ensures GreedyMatch([], parts, raw) == None
  {
    if parts != [] && parts[0] != "" {
      NarrowStep([], 0, parts, raw, []);
    }
  }

  // Registration

  /** Some accepted route reaches the same capture under another name. */
  ghost predicate NameConflict(routes: seq<Route>, segs: seq<Segment>) {
    exists j, i :: ConflictAt(routes, segs, j, i)
  }

  ghost predicate ConflictAt(routes: seq<Route>, segs: seq<Segment>, j: int, i: int) {
    && 0 <= j < |routes| && 0 <= i < |segs| && i < |routes[j].segs|
    && At(routes[j].segs, i + 1) == At(segs, i + 1)
    && !segs[i].Static?
    && Name(routes[j].segs[i]) != Name(segs[i])
  }

  /** Some accepted route has the same heads. */
  ghost predicate Taken(routes: seq<Route>, segs: seq<Segment>) {
    exists j :: 0 <= j < |routes| && End(routes[j].segs) == End(segs)
  }

  /** What every list of accepted routes satisfies. */
  ghost predicate Consistent(routes: seq<Route>) {
    && (forall j {:trigger WellFormed(routes[j].segs)} :: 0 <= j < |routes| ==> WellFormed(routes[j].segs))
    && (forall j, k :: 0 <= j < k < |routes| ==> End(routes[j].segs) != End(routes[k].segs))
    && (forall j {:trigger NameConflict(routes, routes[j].segs)} ::
          0 <= j < |routes| ==> !NameConflict(routes, routes[j].segs))
  }

  lemma AcceptKeepsConsistent(routes: seq<Route>, r: Route)
    requires Consistent(routes) && WellFormed(r.segs)
    requires !NameConflict(routes, r.segs) && !Taken(routes, r.segs)
    ensures Consistent(routes + [r])
  {
    var all := routes + [r];
    forall k | 0 <= k < |all|
      ensures !NameConflict(all, all[k].segs)
    {
      forall j, i
        ensures !ConflictAt(all, all[k].segs, j, i)
      {
        if j < |routes| && k < |routes| {
          assert !NameConflict(routes, routes[k].segs);
          assert ConflictAt(all, all[k].segs, j, i) ==> ConflictAt(routes, routes[k].segs, j, i);
        } else if j < |routes| {
          assert ConflictAt(all, all[k].segs, j, i) ==> ConflictAt(routes, r.segs, j, i);
        } else if k < |routes| {
          ConflictSymmetric(routes, r, k, i);
        }
      }
    }
  }

  lemma ConflictSymmetric(routes: seq<Route>, r: Route, k: nat, i: int)
    requires Consistent(routes) && WellFormed(r.segs) && k < |routes|
    ensures ConflictAt(routes + [r], routes[k].segs, |routes|, i) ==> ConflictAt(routes, r.segs, k, i)
  {
    if ConflictAt(routes + [r], routes[k].segs, |routes|, i) {
      assert WellFormed(routes[k].segs);
      NotStaticByHead(r.segs, routes[k].segs, i);
    }
  }

  /** Well-formed segments at the same position are captures of the same kind. */
  lemma NotStaticByHead(a: seq<Segment>, b: seq<Segment>, i: nat)
    requires i < |a| && i < |b| && SegmentOk(a[i]) && SegmentOk(b[i])
    requires At(a, i + 1) == At(b, i + 1)
    ensures a[i].Static? <==> b[i].Static?
    ensures a[i].Param? <==> b[i].Param?
  {
    assert Head(a[i]) == Head(b[i]);
  }

  // The same list, seen from a position in the trie.

  /** The routes whose pattern passes through `p`, in order. */
  function Through(routes: seq<Route>, p: Position): seq<Route> {
    if routes == [] then []
    else
      var r := routes[|routes| - 1];
      Through(routes[..|routes| - 1], p) + if Passes(r.segs, p) then [r] else []
  }

  lemma {:induction false} ThroughRoot(routes: seq<Route>)
    ensures Through(routes, Root) == routes
  {
    if routes != [] {
      ThroughRoot(routes[..|routes| - 1]);
      assert routes == routes[..|routes| - 1] + [routes[|routes| - 1]];
    }
  }

  lemma KeepAppend(cands: seq<Route>, r: Route, i: nat, h: string)
    ensures Keep(cands + [r], i, h) == Keep(cands, i, h) + if i < |r.segs| && Head(r.segs[i]) == h then [r] else []
  {
    assert (cands + [r])[..|cands|] == cands;
  }

  lemma PassesStep(segs: seq<Segment>, p: Position, h: string)
    ensures Passes(segs, Under(p, h)) <==> Passes(segs, p) && Depth(p) < |segs| && Head(segs[Depth(p)]) == h
  {
    var d := Depth(p);
    assert Depth(Under(p, h)) == d + 1;
    if d < |segs| {
      assert At(segs, d + 1) == Under(At(segs, d), Head(segs[d]));
    }
  }

  /** Keeping a head among the routes through `p` gives the routes through the next position. */
  lemma {:induction false} KeepThrough(routes: seq<Route>, p: Position, h: string)
    ensures Keep(Through(routes, p), Depth(p), h) == Through(routes, Under(p, h))
  {
    if routes != [] {
      var r := routes[|routes| - 1];
      var before := Through(routes[..|routes| - 1], p);
      KeepThrough(routes[..|routes| - 1], p, h);
      PassesStep(r.segs, p, h);
      if Passes(r.segs, p) {
        KeepAppend(before, r, Depth(p), h);
        assert Through(routes, p) == before + [r];
      } else {
        assert Through(routes, p) == before;
      }
    }
  }

  /** One step of narrowing among the routes through a position. */
  function Onward(routes: seq<Route>, p: Position, i: nat, parts: seq<string>, raw: string, values: seq<string>): Option<MatchResult>
    requires i < |parts|
  {
    if Through(routes, Under(p, parts[i])) != [] then Narrow(Through(routes, Under(p, parts[i])), i + 1, parts, raw, values)
    else if Through(routes, Under(p, ":")) != [] then
      Narrow(Through(routes, Under(p, ":")), i + 1, parts, raw, values + [parts[i]])
    else Finish(Through(routes, Under(p, "*")), i + 1, values + [Suffix(raw, Offset(parts, i))])
  }

  lemma NarrowThrough(routes: seq<Route>, p: Position, i: nat, parts: seq<string>, raw: string, values: seq<string>)
    requires i == Depth(p) < |parts| && parts[i] != ""
    ensures Narrow(Through(routes, p), i, parts, raw, values) == Onward(routes, p, i, parts, raw, values)
  {
    NarrowStep(Through(routes, p), i, parts, raw, values);
    KeepThrough(routes, p, parts[i]);
    KeepThrough(routes, p, ":");
    KeepThrough(routes, p, "*");
  }

  lemma {:induction false} ThroughMember(routes: seq<Route>, p: Position, j: nat)
    requires j < |routes| && Passes(routes[j].segs, p)
    ensures routes[j] in Through(routes, p)
  {
    if j < |routes| - 1 {
      ThroughMember(routes[..|routes| - 1], p, j);
    }
  }

  /** Where a route through `p` stands in the list. */
  lemma {:induction false} ThroughWitness(routes: seq<Route>, p: Position) returns (j: nat)
    requires Through(routes, p) != []
    ensures j < |routes| && Passes(routes[j].segs, p)
  {
    if Passes(routes[|routes| - 1].segs, p) {
      j := |routes| - 1;
    } else {
      j := ThroughWitness(routes[..|routes| - 1], p);
    }
  }

  /** Where the route that ends exactly at `p` stands. */
  lemma {:induction false} EndingWitness(routes: seq<Route>, p: Position) returns (j: nat)
    requires Ending(Through(routes, p), Depth(p)).Some?
    ensures j < |routes| && End(routes[j].segs) == p
    ensures Ending(Through(routes, p), Depth(p)) == Some(routes[j])
  {
    var before := routes[..|routes| - 1];
    var last := routes[|routes| - 1];
    var s := Through(before, p);
    if Passes(last.segs, p) {
      assert (s + [last])[..|s|] == s;
      if Ending(s, Depth(p)).Some? {
        j := EndingWitness(before, p);
      } else {
        j := |routes| - 1;
      }
    } else {
      assert s + [] == s;
      j := EndingWitness(before, p);
    }
  }

  lemma {:induction false} EndingFound(routes: seq<Route>, j: nat)
    requires j < |routes|
    ensures Ending(Through(routes, End(routes[j].segs)), |routes[j].segs|).Some?
  {
    var p := End(routes[j].segs);
    var before := routes[..|routes| - 1];
    var last := routes[|routes| - 1];
    var s := Through(before, p);
    if Passes(last.segs, p) {
      assert (s + [last])[..|s|] == s;
    } else {
      assert s + [] == s;
    }
    if j < |routes| - 1 {
      EndingFound(before, j);
    }
  }

  /** In a consistent list the route that ends at a position is the one registered there. */
  lemma EndingIs(routes: seq<Route>, j: nat)
    requires Consistent(routes) && j < |routes|
    ensures Ending(Through(routes, End(routes[j].segs)), |routes[j].segs|) == Some(routes[j])
  {
    EndingFound(routes, j);
    var k := EndingWitness(routes, End(routes[j].segs));
    assert k == j;
  }
}
