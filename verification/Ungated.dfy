/**
 A router served without the application's gate: registrations come at any time, and the cache
 lookup, the match and the cache store of a request are steps between which others can fall.
 */
module Ungated {
  import opened Text
  import opened Paths
  import opened RouteTable
  import opened Routing
  import opened MatchCache
  import opened AppLifecycle

  /** A registration, an arriving request, or the next step of a request. */
  datatype Event = Add(reg: Registration) | Come(id: nat, verb: string, url: string) | Advance(id: nat)

  ghost function Happen(s: App, capacity: nat, e: Event): App {
    match e
    case Add(reg) => RegisterStep(s.(lock := Some(reg)))
    case Come(id, verb, url) =>
      if id !in s.requests && ValidMethod(verb) then
        s.(requests := s.requests[id := Request(verb, DispatchPath(url), Looking)])
      else s
    case Advance(id) => if id in s.requests then RequestStep(s, capacity, id) else s
  }

  /** The state after the first `k` events. */
  ghost function After(events: seq<Event>, capacity: nat, k: nat): App
    requires k <= |events|
  {
    if k == 0 then Initial else Happen(After(events, capacity, k - 1), capacity, events[k - 1])
  }

  // The life of a request

  /** A request keeps its method and path, and a match found stays the one it carries. */
  predicate Follows(r: Request, later: Request) {
    && later.verb == r.verb && later.path == r.path
    && (r.stage.Storing? ==> later.stage == r.stage || later.stage == Served(r.stage.found))
    && (r.stage.Served? || r.stage.NotFound? ==> later.stage == r.stage)
  }

  lemma StepFollows(s: App, capacity: nat, e: Event, id: nat)
    requires id in s.requests
    ensures var t := Happen(s, capacity, e); id in t.requests && Follows(s.requests[id], t.requests[id])
  {
  }

  lemma {:induction false} LaterFollows(events: seq<Event>, capacity: nat, i: nat, k: nat, id: nat)
    requires i <= k <= |events| && id in After(events, capacity, i).requests
    ensures var r, s := After(events, capacity, i).requests[id], After(events, capacity, k);
            id in s.requests && Follows(r, s.requests[id])
  {
    if i < k {
      LaterFollows(events, capacity, i, k - 1, id);
      StepFollows(After(events, capacity, k - 1), capacity, events[k - 1], id);
    }
  }

  lemma {:induction false} MethodsAreTokens(events: seq<Event>, capacity: nat, k: nat)
    requires k <= |events|
    ensures var s := After(events, capacity, k);
            s.lock == None && forall id :: id in s.requests ==> ValidMethod(s.requests[id].verb)
  {
    if k > 0 {
      MethodsAreTokens(events, capacity, k - 1);
    }
  }

  /** The `i`-th event is the match of request `id`, and the `k`-th its store. */
  ghost predicate MatchesAt(events: seq<Event>, capacity: nat, i: nat, id: nat) {
    && i < |events| && events[i] == Advance(id)
    && id in After(events, capacity, i).requests && After(events, capacity, i).requests[id].stage == Matching
  }

  ghost predicate StoresAt(events: seq<Event>, capacity: nat, k: nat, id: nat) {
    && k < |events| && events[k] == Advance(id)
    && id in After(events, capacity, k).requests && After(events, capacity, k).requests[id].stage.Storing?
  }

  /** What request `id` asks for, matched on the table after `k` events. */
  ghost function MatchAt(events: seq<Event>, capacity: nat, k: nat, verb: string, path: string): Option<MatchResult>
    requires k <= |events|
  {
    MatchRoute(After(events, capacity, k).table, verb, path)
  }

  /** What a request is about to store is what its match step found. */
  lemma {:induction false} StoredWasMatched(events: seq<Event>, capacity: nat, k: nat, id: nat) returns (i: nat)
    requires k <= |events| && id in After(events, capacity, k).requests
    requires After(events, capacity, k).requests[id].stage.Storing?
    ensures i < k && MatchesAt(events, capacity, i, id)
    ensures var r := After(events, capacity, k).requests[id];
            MatchAt(events, capacity, i, r.verb, r.path) == Some(r.stage.found)
  {
    var s := After(events, capacity, k - 1);
    BecomesStoring(s, capacity, events[k - 1], id);
    if id in s.requests && s.requests[id].stage.Storing? {
      i := StoredWasMatched(events, capacity, k - 1, id);
    } else {
      i := k - 1;
    }
  }

  /** A request that has a match to store had it before, or this step is its match. */
  lemma BecomesStoring(s: App, capacity: nat, e: Event, id: nat)
    requires id in Happen(s, capacity, e).requests && Happen(s, capacity, e).requests[id].stage.Storing?
    ensures id in s.requests
    ensures var r, t := s.requests[id], Happen(s, capacity, e).requests[id];
            && t.verb == r.verb && t.path == r.path
            && (r.stage == t.stage ||
                (e == Advance(id) && r.stage == Matching && MatchRoute(s.table, r.verb, r.path) == Some(t.stage.found)))
  {
  }

  // When the cache stays honest

  /** Storing a match keeps the cache honest exactly when it is still the match. */
  lemma StoreIff(cache: Fifo<MatchResult>, capacity: nat, t: Table, verb: string, path: string, found: MatchResult)
    requires Honest(cache, t) && ValidMethod(verb)
    ensures Honest(Put(cache, capacity, Key(verb, path), found), t) <==> MatchRoute(t, verb, path) == Some(found)
  {
    if MatchRoute(t, verb, path) == Some(found) {
      PutHonest(cache, capacity, t, verb, path, found);
    } else {
      assert Put(cache, capacity, Key(verb, path), found).data[Key(verb, path)] == found;
    }
  }

  /** Registrations between its match and its store changed the match of a request. */
  ghost predicate Overtaken(events: seq<Event>, capacity: nat, i: nat, k: nat, id: nat) {
    && i < k && MatchesAt(events, capacity, i, id) && StoresAt(events, capacity, k, id)
    && var r := After(events, capacity, k).requests[id];
       MatchAt(events, capacity, k, r.verb, r.path) != MatchAt(events, capacity, i, r.verb, r.path)
  }

  ghost predicate HonestAt(events: seq<Event>, capacity: nat, k: nat) {
    k <= |events| && Honest(After(events, capacity, k).cache, After(events, capacity, k).table)
  }

  lemma OvertakenIsDishonest(events: seq<Event>, capacity: nat, i: nat, k: nat, id: nat)
    requires Overtaken(events, capacity, i, k, id) && HonestAt(events, capacity, k)
    ensures !HonestAt(events, capacity, k + 1)
  {
    var s := After(events, capacity, k);
    var r := s.requests[id];
    MethodsAreTokens(events, capacity, k);
    MatchCarried(events, capacity, i, k, id);
    StoreIff(s.cache, capacity, s.table, r.verb, r.path, r.stage.found);
    StoreStep(s, capacity, id);
  }

  lemma StoreStep(s: App, capacity: nat, id: nat)
    requires id in s.requests && s.requests[id].stage.Storing?
    ensures var r, t := s.requests[id], Happen(s, capacity, Advance(id));
            t.table == s.table && t.cache == Put(s.cache, capacity, Key(r.verb, r.path), r.stage.found)
  {
  }

  lemma MatchStep(s: App, capacity: nat, id: nat)
    requires id in s.requests && s.requests[id].stage == Matching
    ensures var r, t := s.requests[id], Happen(s, capacity, Advance(id));
            && t.table == s.table && t.cache == s.cache && id in t.requests
            && var m := MatchRoute(s.table, r.verb, r.path);
               t.requests[id] == r.(stage := if m.Some? then Storing(m.value) else NotFound)
  {
  }

  /** From its match to its store a request carries what the match found. */
  lemma MatchCarried(events: seq<Event>, capacity: nat, i: nat, k: nat, id: nat)
    requires i < k && MatchesAt(events, capacity, i, id) && StoresAt(events, capacity, k, id)
    ensures var r := After(events, capacity, k).requests[id];
            MatchAt(events, capacity, i, r.verb, r.path) == Some(r.stage.found)
  {
    MatchStep(After(events, capacity, i), capacity, id);
    LaterFollows(events, capacity, i + 1, k, id);
  }

  ghost predicate NeverOvertaken(events: seq<Event>, capacity: nat) {
    forall i: nat, k: nat, id: nat :: !Overtaken(events, capacity, i, k, id)
  }

  predicate IsStore(s: App, e: Event) {
    e.Advance? && e.id in s.requests && s.requests[e.id].stage.Storing?
  }

  /** No other step makes a cache dishonest: an accepted registration empties it. */
  lemma OtherStepsHonest(s: App, capacity: nat, e: Event)
    requires Honest(s.cache, s.table) && !IsStore(s, e)
    ensures var t := Happen(s, capacity, e); Honest(t.cache, t.table)
  {
  }

  lemma StillTheMatch(events: seq<Event>, capacity: nat, k: nat, id: nat)
    requires NeverOvertaken(events, capacity) && StoresAt(events, capacity, k, id)
    ensures var r := After(events, capacity, k).requests[id];
            MatchAt(events, capacity, k, r.verb, r.path) == Some(r.stage.found)
  {
    var i := StoredWasMatched(events, capacity, k, id);
    assert !Overtaken(events, capacity, i, k, id);
  }

  lemma StepHonest(events: seq<Event>, capacity: nat, k: nat)
    requires k < |events| && HonestAt(events, capacity, k) && NeverOvertaken(events, capacity)
    ensures HonestAt(events, capacity, k + 1)
  {
    var s := After(events, capacity, k);
    if IsStore(s, events[k]) {
      var id := events[k].id;
      var r := s.requests[id];
      MethodsAreTokens(events, capacity, k);
      StillTheMatch(events, capacity, k, id);
      StoreIff(s.cache, capacity, s.table, r.verb, r.path, r.stage.found);
      StoreStep(s, capacity, id);
    } else {
      OtherStepsHonest(s, capacity, events[k]);
    }
  }

  lemma EmptyIsHonest(t: Table)
    ensures Honest(Fifo([], map[]), t)
  {
  }

  lemma {:induction false} PrefixHonest(events: seq<Event>, capacity: nat, k: nat)
    requires k <= |events| && NeverOvertaken(events, capacity)
    ensures HonestAt(events, capacity, k)
  {
    if k == 0 {
      EmptyIsHonest(Initial.table);
    } else {
      PrefixHonest(events, capacity, k - 1);
      StepHonest(events, capacity, k - 1);
    }
  }

  /**
   Without the gate the cache holds only current matches all along a run if and only if no request
   is overtaken: no registration between its match and its store changes what it matches.
   */
  lemma HonestIffNeverOvertaken(events: seq<Event>, capacity: nat)
    ensures (forall k: nat :: k <= |events| ==> HonestAt(events, capacity, k)) <==> NeverOvertaken(events, capacity)
  {
    if NeverOvertaken(events, capacity) {
      forall k: nat | k <= |events|
        ensures HonestAt(events, capacity, k)
      {
        PrefixHonest(events, capacity, k);
      }
    } else {
      var i: nat, k: nat, id: nat :| Overtaken(events, capacity, i, k, id);
      if HonestAt(events, capacity, k) {
        OvertakenIsDishonest(events, capacity, i, k, id);
      }
    }
  }

  // A run that goes wrong: GET on the root path is registered while a match of ANY on it is on its way to the cache

  function RootRegistration(verb: string, h: Handler): Registration {
    Registration("", verb, "", Some(h), RouteMeta("", []))
  }

  lemma RootShape(verb: string, h: Handler)
    ensures FullPath(RootRegistration(verb, h)) == "/" && SegmentsOf(RootRegistration(verb, h)) == []
  {
    assert Core("") == "";
  }

  lemma RootMatches(routes: seq<Route>)
    requires |routes| == 1 && routes[0].segs == []
    ensures GreedyMatch(routes, [], "/").Some?
  {
    assert routes[..0] == [];
    assert Ending(routes, 0) == Some(routes[0]);
  }

  lemma RootAccepted(t: Table, verb: string, h: Handler)
    requires !t.frozen && verb !in t.routes && ValidMethod(verb)
    ensures Verdict(t, RootRegistration(verb, h)).None?
    ensures MatchIn(Register(t, RootRegistration(verb, h)), verb, "/").Some?
  {
    RootShape(verb, h);
    RootMatches([RouteOf(RootRegistration(verb, h))]);
  }

  /** The events: ANY registered, a GET request comes, misses the cache and matches, GET is registered, the match is stored. */
  function StaleEvents(h: Handler): seq<Event> {
    [Add(RootRegistration(METHOD_ANY, h)), Come(0, METHOD_GET, "/"), Advance(0), Advance(0),
     Add(RootRegistration(METHOD_GET, h)), Advance(0)]
  }

  lemma AddStep(s: App, capacity: nat, reg: Registration)
    ensures var t := Happen(s, capacity, Add(reg));
            && t.table == Register(s.table, reg) && t.requests == s.requests
            && (Verdict(s.table, reg).None? ==> t.cache == Fifo([], map[]))
  {
  }

  lemma LookupMiss(s: App, capacity: nat, id: nat)
    requires id in s.requests && s.requests[id].stage == Looking && s.cache == Fifo([], map[])
    ensures var t := Happen(s, capacity, Advance(id));
            t == s.(requests := s.requests[id := s.requests[id].(stage := Matching)])
  {
  }

  /** What GET on the root path matches before and after its own registration differs. */
  lemma RootMatchChanges(h: Handler)
    ensures var t := Register(EmptyTable, RootRegistration(METHOD_ANY, h));
            && Verdict(EmptyTable, RootRegistration(METHOD_ANY, h)).None? && MatchRoute(t, METHOD_GET, "/").Some?
            && MatchRoute(Register(t, RootRegistration(METHOD_GET, h)), METHOD_GET, "/") != MatchRoute(t, METHOD_GET, "/")
  {
    var t := Register(EmptyTable, RootRegistration(METHOD_ANY, h));
    RootAccepted(EmptyTable, METHOD_ANY, h);
    RootAccepted(t, METHOD_GET, h);
    NoRoutesNoMatch([], "/");
  }

  lemma ComeStep(s: App, capacity: nat, id: nat)
    requires id !in s.requests
    ensures var t := Happen(s, capacity, Come(id, METHOD_GET, "/"));
            && t.table == s.table && t.cache == s.cache && id in t.requests
            && t.requests[id] == Request(METHOD_GET, "/", Looking)
  {
    CoreOfBare("");
    assert ValidMethod(METHOD_GET);
  }

  /** After the lookup the request is about to be matched on the first table. */
  lemma StaleStart(h: Handler, capacity: nat)
    ensures var s := After(StaleEvents(h), capacity, 3);
            && s.table == Register(EmptyTable, RootRegistration(METHOD_ANY, h))
            && 0 in s.requests && s.requests[0] == Request(METHOD_GET, "/", Matching)
  {
    var es := StaleEvents(h);
    RootAccepted(EmptyTable, METHOD_ANY, h);
    AddStep(Initial, capacity, RootRegistration(METHOD_ANY, h));
    assert After(es, capacity, 0) == Initial;
    var s1, s2 := After(es, capacity, 1), After(es, capacity, 2);
    assert s1 == Happen(Initial, capacity, es[0]);
    ComeStep(s1, capacity, 0);
    assert s2 == Happen(s1, capacity, es[1]);
    LookupMiss(s2, capacity, 0);
    assert After(es, capacity, 3) == Happen(s2, capacity, es[2]);
  }

  /** The request is overtaken, and the cache ends up holding what is not the match. */
  lemma StaleRun(h: Handler, capacity: nat)
    ensures Overtaken(StaleEvents(h), capacity, 3, 5, 0)
    ensures !HonestAt(StaleEvents(h), capacity, 5) || !HonestAt(StaleEvents(h), capacity, 6)
  {
    var es := StaleEvents(h);
    RootMatchChanges(h);
    StaleStart(h, capacity);
    var s3 := After(es, capacity, 3);
    MatchStep(s3, capacity, 0);
    var s4 := After(es, capacity, 4);
    assert s4 == Happen(s3, capacity, es[3]);
    AddStep(s4, capacity, RootRegistration(METHOD_GET, h));
    assert After(es, capacity, 5) == Happen(s4, capacity, es[4]);
    assert MatchesAt(es, capacity, 3, 0) && StoresAt(es, capacity, 5, 0);
    if HonestAt(es, capacity, 5) {
      OvertakenIsDishonest(es, capacity, 3, 5, 0);
    }
  }
}
