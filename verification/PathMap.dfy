/**
 The contents of a trie without its nodes: which positions exist and what they carry.

 A position is the sequence of heads on the way from the root. This is the middle layer
 between the linked nodes and the route list: the node walk is a walk over positions, and the
 walk over positions is the greedy narrowing of the list.
 */
module PathMap {
  import opened Text
  import opened Patterns
  import opened RouteTable

  datatype Endpoint = Endpoint(handler: Handler, keys: seq<string>, pattern: string, routeName: string)

  datatype Payload = Payload(paramName: string, endpoint: Option<Endpoint>)

  type Positions = map<Position, Payload>

  function EndpointOf(r: Route): Endpoint {
    Endpoint(r.handler, ParamKeys(r.segs), r.pattern, r.meta.name)
  }

  ghost predicate Reaches(routes: seq<Route>, p: Position) {
    exists j :: 0 <= j < |routes| && Passes(routes[j].segs, p)
  }

  ghost predicate EndsAt(routes: seq<Route>, p: Position) {
    exists j :: 0 <= j < |routes| && End(routes[j].segs) == p
  }

  ghost predicate NameAt(m: Positions, segs: seq<Segment>, i: nat)
    requires i < |segs|
  {
    At(segs, i + 1) in m && m[At(segs, i + 1)].paramName == Name(segs[i])
  }

  ghost predicate CarriesEndpoint(m: Positions, r: Route) {
    End(r.segs) in m && m[End(r.segs)].endpoint == Some(EndpointOf(r))
  }

  ghost predicate CarriesNames(m: Positions, r: Route) {
    forall i {:trigger NameAt(m, r.segs, i)} :: 0 <= i < |r.segs| && !r.segs[i].Static? ==> NameAt(m, r.segs, i)
  }

  /**
   The positions are exactly those of the accepted routes: every non-root position leads to a
   route, a position carries an endpoint exactly when a route ends there, and capturing
   positions carry the name all routes through them agree on.
   */
  ghost predicate Represents(m: Positions, routes: seq<Route>) {
    Consistent(routes) && PositionsRight(m, routes) && EndpointsRight(m, routes) && AllCarried(m, routes)
  }

  ghost predicate PositionsRight(m: Positions, routes: seq<Route>) {
    forall p {:trigger Reaches(routes, p)} :: p in m <==> p == Root || Reaches(routes, p)
  }

  ghost predicate EndpointsRight(m: Positions, routes: seq<Route>) {
    forall p {:trigger EndsAt(routes, p)} :: p in m && m[p].endpoint.Some? ==> EndsAt(routes, p)
  }

  ghost predicate AllCarried(m: Positions, routes: seq<Route>) {
    forall j {:trigger CarriesEndpoint(m, routes[j])} {:trigger CarriesNames(m, routes[j])} ::
      0 <= j < |routes| ==> CarriesEndpoint(m, routes[j]) && CarriesNames(m, routes[j])
  }

  lemma EmptyRepresents()
    ensures Represents(map[Root := Payload("", None)], [])
  {
  }

  /** Where the walk stops: a match exactly when the position carries an endpoint. */
  function Arrive(m: Positions, p: Position, values: seq<string>): Option<MatchResult> {
    if p in m && m[p].endpoint.Some? then
      var e := m[p].endpoint.value;
      Some(MatchResult(e.handler, values, e.keys, e.pattern, "", e.routeName))
    else None
  }

  /** The walk `matchNode` makes, over positions. */
  function Walk(m: Positions, p: Position, i: nat, parts: seq<string>, raw: string, values: seq<string>): Option<MatchResult>
    requires i <= |parts|
    decreases |parts| - i
  {
    if i == |parts| then Arrive(m, p, values)
    else if parts[i] == "" then None
    else if Under(p, parts[i]) in m then Walk(m, Under(p, parts[i]), i + 1, parts, raw, values)
    else if Under(p, ":") in m then Walk(m, Under(p, ":"), i + 1, parts, raw, values + [parts[i]])
    else Arrive(m, Under(p, "*"), values + [Suffix(raw, Offset(parts, i))])
  }

  lemma ReachesIsThrough(routes: seq<Route>, p: Position)
    ensures Reaches(routes, p) <==> Through(routes, p) != []
  {
    if Through(routes, p) != [] {
      var j := ThroughWitness(routes, p);
    }
    if Reaches(routes, p) {
      var j :| 0 <= j < |routes| && Passes(routes[j].segs, p);
      ThroughMember(routes, p, j);
    }
  }

  lemma ArriveIsFinish(m: Positions, routes: seq<Route>, p: Position, values: seq<string>)
    requires Represents(m, routes)
    ensures Arrive(m, p, values) == Finish(Through(routes, p), Depth(p), values)
  {
    if EndsAt(routes, p) {
      var j :| 0 <= j < |routes| && End(routes[j].segs) == p;
      EndingIs(routes, j);
      assert CarriesEndpoint(m, routes[j]);
    } else if Ending(Through(routes, p), Depth(p)).Some? {
      var j := EndingWitness(routes, p);
    }
  }

  /** A position below the root is there exactly when some route passes through it. */
  lemma PresentIff(m: Positions, routes: seq<Route>, p: Position)
    requires PositionsRight(m, routes) && p != Root
    ensures p in m <==> Through(routes, p) != []
  {
    ReachesIsThrough(routes, p);
  }

  /** What `Keep` gives one step below a position, and whether that position is there. */
  lemma StepIsKeep(m: Positions, routes: seq<Route>, p: Position, h: string)
    requires PositionsRight(m, routes)
    ensures Keep(Through(routes, p), Depth(p), h) == Through(routes, Under(p, h))
    ensures Under(p, h) in m <==> Through(routes, Under(p, h)) != []
  {
    KeepThrough(routes, p, h);
    PresentIff(m, routes, Under(p, h));
  }

  /**
   The candidates `t` gives for each position are kept one step at a time, a position is there
   exactly when it has candidates, and stopping at it is finishing among them.
   */
  ghost predicate Tracks(m: Positions, t: Position -> seq<Route>) {
    && (forall p, h {:trigger t(Under(p, h))} ::
          Keep(t(p), Depth(p), h) == t(Under(p, h)) && (Under(p, h) in m <==> t(Under(p, h)) != []))
    && (forall p, values {:trigger t(p), Arrive(m, p, values)} :: Arrive(m, p, values) == Finish(t(p), Depth(p), values))
  }

  /** The walk over positions is the greedy narrowing of the candidates. */
  lemma {:induction false} WalkIsNarrow(m: Positions, t: Position -> seq<Route>, p: Position, i: nat, parts: seq<string>,
                                        raw: string, values: seq<string>)
    requires Tracks(m, t) && i == Depth(p) <= |parts|
    ensures Walk(m, p, i, parts, raw, values) == Narrow(t(p), i, parts, raw, values)
    decreases |parts| - i
  {
    if i < |parts| && parts[i] != "" {
      var exact, param := t(Under(p, parts[i])), t(Under(p, ":"));
      if Under(p, parts[i]) in m {
        WalkIsNarrow(m, t, Under(p, parts[i]), i + 1, parts, raw, values);
        StepExact(m, t(p), exact, p, i, parts, raw, values);
      } else if Under(p, ":") in m {
        WalkIsNarrow(m, t, Under(p, ":"), i + 1, parts, raw, values + [parts[i]]);
        StepParam(m, t(p), param, p, i, parts, raw, values);
      } else {
        var wild := t(Under(p, "*"));
        StepWild(m, t(p), p, i, parts, raw, values);
      }
    }
  }

  lemma StepExact(m: Positions, cands: seq<Route>, kept: seq<Route>, p: Position, i: nat, parts: seq<string>, raw: string,
                  values: seq<string>)
    requires i < |parts| && parts[i] != "" && Under(p, parts[i]) in m && Keep(cands, i, parts[i]) == kept != []
    requires Walk(m, Under(p, parts[i]), i + 1, parts, raw, values) == Narrow(kept, i + 1, parts, raw, values)
    ensures Walk(m, p, i, parts, raw, values) == Narrow(cands, i, parts, raw, values)
  {
  }

  lemma StepParam(m: Positions, cands: seq<Route>, kept: seq<Route>, p: Position, i: nat, parts: seq<string>, raw: string,
                  values: seq<string>)
    requires i < |parts| && parts[i] != "" && Under(p, parts[i]) !in m && Under(p, ":") in m
    requires Keep(cands, i, parts[i]) == [] && Keep(cands, i, ":") == kept != []
    requires var values' := values + [parts[i]];
             Walk(m, Under(p, ":"), i + 1, parts, raw, values') == Narrow(kept, i + 1, parts, raw, values')
    ensures Walk(m, p, i, parts, raw, values) == Narrow(cands, i, parts, raw, values)
  {
  }

  lemma StepWild(m: Positions, cands: seq<Route>, p: Position, i: nat, parts: seq<string>, raw: string, values: seq<string>)
    requires i < |parts| && parts[i] != "" && Under(p, parts[i]) !in m && Under(p, ":") !in m
    requires Keep(cands, i, parts[i]) == [] && Keep(cands, i, ":") == []
    requires var values' := values + [Suffix(raw, Offset(parts, i))];
             Arrive(m, Under(p, "*"), values') == Finish(Keep(cands, i, "*"), i + 1, values')
    ensures Walk(m, p, i, parts, raw, values) == Narrow(cands, i, parts, raw, values)
  {
  }

  lemma WalkIsGreedy(m: Positions, routes: seq<Route>, parts: seq<string>, raw: string)
    requires Represents(m, routes)
    ensures Walk(m, Root, 0, parts, raw, []) == GreedyMatch(routes, parts, raw)
  {
    var t := (p: Position) => Through(routes, p);
    forall p, h
      ensures Keep(t(p), Depth(p), h) == t(Under(p, h)) && (Under(p, h) in m <==> t(Under(p, h)) != [])
    {
      StepIsKeep(m, routes, p, h);
    }
    forall p, values
      ensures Arrive(m, p, values) == Finish(t(p), Depth(p), values)
    {
      ArriveIsFinish(m, routes, p, values);
    }
    WalkIsNarrow(m, t, Root, 0, parts, raw, []);
    ThroughRoot(routes);
  }

  /** The endpoint at the end of a pattern is there exactly when the pattern is taken. */
  lemma TakenIsEndpoint(m: Positions, routes: seq<Route>, segs: seq<Segment>)
    requires Represents(m, routes)
    ensures Taken(routes, segs) <==> End(segs) in m && m[End(segs)].endpoint.Some?
  {
    if Taken(routes, segs) {
      var j :| 0 <= j < |routes| && End(routes[j].segs) == End(segs);
      assert CarriesEndpoint(m, routes[j]);
    } else {
      assert !EndsAt(routes, End(segs));
    }
  }

  // Growing

  /** What the registration loop does to the positions at segment `i`. */
  function Grow(g: Positions, segs: seq<Segment>, i: nat): Positions
    requires i < |segs|
  {
    var p := At(segs, i + 1);
    if p in g then g else g[p := Payload(Name(segs[i]), None)]
  }

  /** The positions after the registration loop handled the first `i` segments. */
  function Grown(m: Positions, segs: seq<Segment>, i: nat): Positions
    requires i <= |segs|
  {
    if i == 0 then m else Grow(Grown(m, segs, i - 1), segs, i - 1)
  }

  /** `q` is one of the first `i` non-root positions on the way of `segs`. */
  ghost predicate OnWay(segs: seq<Segment>, i: nat, q: Position) {
    1 <= Depth(q) <= i && Passes(segs, q)
  }

  /** The positions of `g` are those of `m` and the first `i` on the way of the new pattern. */
  ghost predicate GrownTo(m: Positions, segs: seq<Segment>, i: nat, g: Positions) {
    && (forall q :: q in g <==> q in m || OnWay(segs, i, q))
    && (forall q :: q in m ==> q in g && g[q] == m[q])
    && (forall q :: q in g && q !in m ==> 1 <= Depth(q) <= |segs| && g[q] == Payload(Name(segs[Depth(q) - 1]), None))
  }

  lemma {:induction false} GrownIsGrownTo(m: Positions, segs: seq<Segment>, i: nat)
    requires i <= |segs|
    ensures GrownTo(m, segs, i, Grown(m, segs, i))
  {
    if i > 0 {
      GrownIsGrownTo(m, segs, i - 1);
      var p := At(segs, i);
      assert forall q :: OnWay(segs, i, q) <==> OnWay(segs, i - 1, q) || q == p;
    }
  }

  lemma RootPosition(m: Positions, routes: seq<Route>)
    requires Represents(m, routes)
    ensures Root in m
  {
    var _ := Reaches(routes, Root);
  }

  lemma ParentPosition(m: Positions, routes: seq<Route>, p: Position, h: string)
    requires Represents(m, routes) && Under(p, h) in m
    ensures p in m
  {
    assert Reaches(routes, Under(p, h));
    var j :| 0 <= j < |routes| && Passes(routes[j].segs, Under(p, h));
    assert Passes(routes[j].segs, p);
    assert Reaches(routes, p);
  }

  /** Reaching an old position means nothing was created on the way. */
  lemma {:induction false} GrownUntouched(m: Positions, routes: seq<Route>, segs: seq<Segment>, i: nat)
    requires Represents(m, routes) && i <= |segs| && At(segs, i) in m
    ensures Grown(m, segs, i) == m
  {
    if i > 0 {
      ParentPosition(m, routes, At(segs, i - 1), Head(segs[i - 1]));
      GrownUntouched(m, routes, segs, i - 1);
    }
  }

  /** An existing capture carries the name of any accepted route through it. */
  lemma NameOfRoute(m: Positions, routes: seq<Route>, segs: seq<Segment>, j: nat, i: nat)
    requires Represents(m, routes) && j < |routes|
    requires i < |segs| && i < |routes[j].segs| && !segs[i].Static? && SegmentOk(segs[i])
    requires At(routes[j].segs, i + 1) == At(segs, i + 1)
    ensures At(segs, i + 1) in m
    ensures m[At(segs, i + 1)].paramName == Name(routes[j].segs[i])
  {
    assert WellFormed(routes[j].segs);
    NotStaticByHead(routes[j].segs, segs, i);
    assert CarriesNames(m, routes[j]);
    assert NameAt(m, routes[j].segs, i);
  }

  /** A differing name on an existing capture is a conflict with an accepted route, and conversely. */
  lemma MismatchIsConflict(m: Positions, routes: seq<Route>, segs: seq<Segment>, i: nat)
    requires Represents(m, routes) && i < |segs| && !segs[i].Static? && SegmentOk(segs[i])
    ensures At(segs, i + 1) in m && m[At(segs, i + 1)].paramName != Name(segs[i]) <==>
            exists j :: ConflictAt(routes, segs, j, i)
  {
    var p := At(segs, i + 1);
    if exists j :: ConflictAt(routes, segs, j, i) {
      var j :| ConflictAt(routes, segs, j, i);
      NameOfRoute(m, routes, segs, j, i);
    } else if p in m {
      assert Reaches(routes, p);
      var j :| 0 <= j < |routes| && Passes(routes[j].segs, p);
      NameOfRoute(m, routes, segs, j, i);
      assert !ConflictAt(routes, segs, j, i);
    }
  }

  /** An existing capture always has a name, so there is never an empty one to fill in. */
  lemma CaptureIsNamed(m: Positions, routes: seq<Route>, segs: seq<Segment>, i: nat)
    requires Represents(m, routes) && i < |segs| && !segs[i].Static? && SegmentOk(segs[i]) && At(segs, i + 1) in m
    ensures m[At(segs, i + 1)].paramName != ""
  {
    var p := At(segs, i + 1);
    assert Reaches(routes, p);
    var j :| 0 <= j < |routes| && Passes(routes[j].segs, p);
    NameOfRoute(m, routes, segs, j, i);
    assert WellFormed(routes[j].segs);
    NotStaticByHead(routes[j].segs, segs, i);
  }

  /** The first `i` segments name the existing captures they pass as those are named. */
  ghost predicate NamesAgree(m: Positions, segs: seq<Segment>, i: nat)
    requires i <= |segs|
  {
    i == 0 || (NamesAgree(m, segs, i - 1) && (!segs[i - 1].Static? && At(segs, i) in m ==> NameAt(m, segs, i - 1)))
  }

  lemma {:induction false} NamesAgreeAt(m: Positions, segs: seq<Segment>, i: nat, k: nat)
    requires k < i <= |segs| && NamesAgree(m, segs, i) && !segs[k].Static? && At(segs, k + 1) in m
    ensures NameAt(m, segs, k)
  {
    if k < i - 1 {
      NamesAgreeAt(m, segs, i - 1, k);
    }
  }

  lemma NamesAgreeNoConflict(m: Positions, routes: seq<Route>, segs: seq<Segment>)
    requires Represents(m, routes) && WellFormed(segs) && NamesAgree(m, segs, |segs|)
    ensures !NameConflict(routes, segs)
  {
    forall j, i
      ensures !ConflictAt(routes, segs, j, i)
    {
      if 0 <= i < |segs| && !segs[i].Static? {
        MismatchIsConflict(m, routes, segs, i);
        if At(segs, i + 1) in m {
          NamesAgreeAt(m, segs, |segs|, i);
        }
      }
    }
  }

  /** The next position exists after the loop so far exactly when it existed before. */
  lemma GrownHere(m: Positions, segs: seq<Segment>, i: nat)
    requires i < |segs|
    ensures At(segs, i + 1) in Grown(m, segs, i) <==> At(segs, i + 1) in m
    ensures At(segs, i + 1) in m ==> Grown(m, segs, i)[At(segs, i + 1)] == m[At(segs, i + 1)]
  {
    GrownIsGrownTo(m, segs, i);
  }

  /** A turn of the loop that finds its position changes nothing and sees a conflict if there is one. */
  lemma ExistingStep(m: Positions, routes: seq<Route>, segs: seq<Segment>, i: nat)
    requires Represents(m, routes) && i < |segs| && SegmentOk(segs[i]) && At(segs, i + 1) in m
    ensures Grown(m, segs, i) == m && Grown(m, segs, i + 1) == m
    ensures !segs[i].Static? && m[At(segs, i + 1)].paramName != Name(segs[i]) ==> NameConflict(routes, segs)
  {
    ParentPosition(m, routes, At(segs, i), Head(segs[i]));
    GrownUntouched(m, routes, segs, i);
    if !segs[i].Static? {
      MismatchIsConflict(m, routes, segs, i);
    }
  }

  /** After the loop the last position carries an endpoint exactly when the pattern is taken. */
  lemma EndGrown(m: Positions, routes: seq<Route>, segs: seq<Segment>)
    requires Represents(m, routes) && End(segs) in Grown(m, segs, |segs|)
    ensures var grown := Grown(m, segs, |segs|);
            && (grown[End(segs)].endpoint.Some? <==> Taken(routes, segs))
            && (Taken(routes, segs) ==> grown == m)
  {
    TakenIsEndpoint(m, routes, segs);
    GrownIsGrownTo(m, segs, |segs|);
    if Taken(routes, segs) {
      GrownUntouched(m, routes, segs, |segs|);
    }
  }

  /** Putting the endpoint on the grown positions represents the extended list. */
  lemma AcceptRepresents(m: Positions, routes: seq<Route>, r: Route)
    requires Represents(m, routes) && WellFormed(r.segs)
    requires !NameConflict(routes, r.segs) && !Taken(routes, r.segs)
    ensures End(r.segs) in Grown(m, r.segs, |r.segs|)
    ensures var grown := Grown(m, r.segs, |r.segs|);
            Represents(grown[End(r.segs) := grown[End(r.segs)].(endpoint := Some(EndpointOf(r)))], routes + [r])
  {
    var grown := Grown(m, r.segs, |r.segs|);
    RootPosition(m, routes);
    GrownIsGrownTo(m, r.segs, |r.segs|);
    AcceptedGrown(m, r, grown);
    var m2 := grown[End(r.segs) := grown[End(r.segs)].(endpoint := Some(EndpointOf(r)))];
    AcceptKeepsConsistent(routes, r);
    AcceptPositions(m, routes, r, m2);
    AcceptEndpoints(m, routes, r, m2);
    AcceptCarried(m, routes, r, m2);
  }

  lemma AcceptedGrown(m: Positions, r: Route, g: Positions)
    requires Root in m && GrownTo(m, r.segs, |r.segs|, g)
    ensures End(r.segs) in g
    ensures Accepted(m, r, g[End(r.segs) := g[End(r.segs)].(endpoint := Some(EndpointOf(r)))])
  {
    assert r.segs == [] || OnWay(r.segs, |r.segs|, End(r.segs));
  }

  /** How a map of positions changes when `r` is accepted. */
  ghost predicate Accepted(m: Positions, r: Route, m2: Positions) {
    && CarriesEndpoint(m2, r)
    && (forall q :: q in m2 <==> q in m || OnWay(r.segs, |r.segs|, q))
    && (forall q :: q in m ==> m2[q].paramName == m[q].paramName)
    && (forall q :: q in m && q != End(r.segs) ==> m2[q].endpoint == m[q].endpoint)
    && (forall q :: q in m2 && q !in m ==> 1 <= Depth(q) <= |r.segs| && m2[q].paramName == Name(r.segs[Depth(q) - 1]))
    && (forall q :: q in m2 && q !in m && q != End(r.segs) ==> m2[q].endpoint == None)
  }

  lemma AcceptPositions(m: Positions, routes: seq<Route>, r: Route, m2: Positions)
    requires Represents(m, routes) && Accepted(m, r, m2)
    ensures PositionsRight(m2, routes + [r])
  {
    var all := routes + [r];
    forall q
      ensures q in m2 <==> q == Root || Reaches(all, q)
    {
      assert q in m <==> q == Root || Reaches(routes, q);
      assert Passes(r.segs, q) <==> q == Root || OnWay(r.segs, |r.segs|, q);
      if Passes(r.segs, q) {
        assert Passes(all[|routes|].segs, q);
      }
      if Reaches(routes, q) {
        var j :| 0 <= j < |routes| && Passes(routes[j].segs, q);
        assert Passes(all[j].segs, q);
      }
      if Reaches(all, q) {
        var j :| 0 <= j < |all| && Passes(all[j].segs, q);
        assert j < |routes| ==> Passes(routes[j].segs, q);
      }
    }
  }

  lemma AcceptEndpoints(m: Positions, routes: seq<Route>, r: Route, m2: Positions)
    requires Represents(m, routes) && Accepted(m, r, m2)
    ensures EndpointsRight(m2, routes + [r])
  {
    var all := routes + [r];
    forall q | q in m2 && m2[q].endpoint.Some?
      ensures EndsAt(all, q)
    {
      if q == End(r.segs) {
        assert End(all[|routes|].segs) == q;
      } else {
        assert EndsAt(routes, q);
        var j :| 0 <= j < |routes| && End(routes[j].segs) == q;
        assert End(all[j].segs) == q;
      }
    }
  }

  lemma AcceptCarried(m: Positions, routes: seq<Route>, r: Route, m2: Positions)
    requires Represents(m, routes) && Accepted(m, r, m2)
    requires WellFormed(r.segs) && !NameConflict(routes, r.segs) && !Taken(routes, r.segs)
    ensures AllCarried(m2, routes + [r])
  {
    var all := routes + [r];
    forall j | 0 <= j < |all|
      ensures CarriesEndpoint(m2, all[j]) && CarriesNames(m2, all[j])
    {
      if j < |routes| {
        OldCarried(m, routes, r, m2, j);
      } else {
        forall i | 0 <= i < |r.segs| && !r.segs[i].Static?
          ensures NameAt(m2, r.segs, i)
        {
          MismatchIsConflict(m, routes, r.segs, i);
          NewName(m, r, m2, i);
        }
      }
    }
  }

  lemma OldCarried(m: Positions, routes: seq<Route>, r: Route, m2: Positions, j: nat)
    requires Represents(m, routes) && Accepted(m, r, m2) && !Taken(routes, r.segs) && j < |routes|
    ensures CarriesEndpoint(m2, routes[j]) && CarriesNames(m2, routes[j])
  {
    assert CarriesEndpoint(m, routes[j]) && CarriesNames(m, routes[j]);
    forall i | 0 <= i < |routes[j].segs| && !routes[j].segs[i].Static?
      ensures NameAt(m2, routes[j].segs, i)
    {
      assert NameAt(m, routes[j].segs, i);
    }
  }

  lemma NewName(m: Positions, r: Route, m2: Positions, i: nat)
    requires Accepted(m, r, m2) && i < |r.segs|
    requires At(r.segs, i + 1) in m ==> m[At(r.segs, i + 1)].paramName == Name(r.segs[i])
    ensures NameAt(m2, r.segs, i)
  {
    assert OnWay(r.segs, |r.segs|, At(r.segs, i + 1));
  }
}
