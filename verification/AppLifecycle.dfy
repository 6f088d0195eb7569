/**
 The application kernel as a step system: registration under the app lock, the one-time freeze,
 and requests whose cache lookup, match and cache store are separate steps, in any interleaving.
 */
module AppLifecycle {
  import opened Text
  import opened Paths
  import opened RouteTable
  import opened Routing
  import opened MatchCache

  datatype Preparation = Mutable | HandlerPrepared | ServerPrepared

  /** How far the body of `handlerOnce` has come. */
  datatype Once = Idle | Entered | ConfigFrozen | RouterFrozen | Built

  datatype Stage =
    | Arrived
    | Looking
    | Matching
    | Storing(found: MatchResult)
    | Served(result: MatchResult)
    | NotFound

  datatype Request = Request(verb: string, path: string, stage: Stage)

  /** `lock` is the registration that holds the app lock after passing the state check. */
  datatype App = App(
    prep: Preparation, once: Once, lock: Option<Registration>, table: Table, cache: Fifo<MatchResult>,
    requests: map<nat, Request>)

  datatype Action =
    | BeginRegister(reg: Registration)
    | EndRegister
    | EnterOnce
    | FreezeConfig
    | FreezeRouter
    | BuildHandler
    | InstallServer
    | Arrive(id: nat, verb: string, url: string)
    | PassOnce(id: nat)
    | Lookup(id: nat)
    | Match(id: nat)
    | Store(id: nat)

  const Initial := App(Mutable, Idle, None, EmptyTable, Fifo([], map[]), map[])

  /** The cache key of `ServeHTTP`. */
  function Key(verb: string, path: string): string {
    verb + ":" + path
  }

  predicate At(s: App, id: nat, stage: Stage) {
    id in s.requests && s.requests[id].stage == stage
  }

  function Move(s: App, id: nat, stage: Stage): App
    requires id in s.requests
  {
    s.(requests := s.requests[id := s.requests[id].(stage := stage)])
  }

  /** Registration: refused unless the app is mutable, and then atomic under the app lock. */
  ghost function RegisterStep(s: App): App
    requires s.lock.Some?
  {
    var reg := s.lock.value;
    s.(lock := None, table := Register(s.table, reg),
       cache := if Verdict(s.table, reg).None? then Fifo([], map[]) else s.cache)
  }

  /** One request step after the handler is built. */
  function RequestStep(s: App, capacity: nat, id: nat): App
    requires id in s.requests
  {
    var r := s.requests[id];
    match r.stage
    case Looking =>
      if Key(r.verb, r.path) in s.cache.data then Move(s, id, Served(s.cache.data[Key(r.verb, r.path)]))
      else Move(s, id, Matching)
    case Matching =>
      var m := MatchRoute(s.table, r.verb, r.path);
      Move(s, id, if m.Some? then Storing(m.value) else NotFound)
    case Storing(found) =>
      Move(s, id, Served(found)).(cache := Put(s.cache, capacity, Key(r.verb, r.path), found))
    case _ => s
  }

  /** A step that is not enabled changes nothing. */
  ghost function Step(s: App, capacity: nat, a: Action): App {
    match a
    case BeginRegister(reg) => if s.lock.None? && s.prep == Mutable then s.(lock := Some(reg)) else s
    case EndRegister => if s.lock.Some? then RegisterStep(s) else s
    case EnterOnce => if s.once == Idle then s.(once := Entered) else s
    case FreezeConfig =>
      if s.once == Entered && s.lock.None? then
        s.(once := ConfigFrozen, prep := if s.prep == Mutable then HandlerPrepared else s.prep)
      else s
    case FreezeRouter => if s.once == ConfigFrozen then s.(once := RouterFrozen, table := s.table.(frozen := true)) else s
    case BuildHandler => if s.once == RouterFrozen then s.(once := Built) else s
    case InstallServer => if s.once == Built && s.lock.None? then s.(prep := ServerPrepared) else s
    case Arrive(id, verb, url) =>
      if id !in s.requests && ValidMethod(verb) then
        s.(requests := s.requests[id := Request(verb, DispatchPath(url), Arrived)])
      else s
    case PassOnce(id) => if At(s, id, Arrived) && s.once == Built then Move(s, id, Looking) else s
    case Lookup(id) => if At(s, id, Looking) then RequestStep(s, capacity, id) else s
    case Match(id) => if At(s, id, Matching) then RequestStep(s, capacity, id) else s
    case Store(id) => if id in s.requests && s.requests[id].stage.Storing? then RequestStep(s, capacity, id) else s
  }

  ghost function Run(actions: seq<Action>, capacity: nat): App {
    if actions == [] then Initial
    else Step(Run(actions[..|actions| - 1], capacity), capacity, actions[|actions| - 1])
  }

  /** The cache key determines method and path, because a token has no colon. */
  lemma KeyInjective(v1: string, p1: string, v2: string, p2: string)
    requires ValidMethod(v1) && ValidMethod(v2) && Key(v1, p1) == Key(v2, p2)
    ensures v1 == v2 && p1 == p2
  {
    var k := Key(v1, p1);
    assert k[|v1|] == ':' && k[|v2|] == ':';
    assert forall i :: 0 <= i < |v1| ==> k[i] == v1[i] && IsTokenChar(v1[i]);
    assert forall i :: 0 <= i < |v2| ==> k[i] == v2[i] && IsTokenChar(v2[i]);
    assert |v1| == |v2|;
    assert v1 == k[..|v1|] && v2 == k[..|v2|];
    assert p1 == k[|v1| + 1..] && p2 == k[|v2| + 1..];
  }

  // Invariant

  /** Every entry the cache holds is what matching gives on the table. */
  ghost predicate Honest(cache: Fifo<MatchResult>, t: Table) {
    forall v, p {:trigger Key(v, p)} :: ValidMethod(v) && Key(v, p) in cache.data ==>
                                          MatchRoute(t, v, p) == Some(cache.data[Key(v, p)])
  }

  /** A request is at a stage it can be at, and what it carries is what matching gives. */
  ghost predicate RequestOk(s: App, r: Request) {
    && ValidMethod(r.verb) && r.path == DispatchPath(r.path)
    && (r.stage.Arrived? || s.once == Built)
    && (r.stage.Storing? ==> MatchRoute(s.table, r.verb, r.path) == Some(r.stage.found))
    && (r.stage.Served? ==> MatchRoute(s.table, r.verb, r.path) == Some(r.stage.result))
    && (r.stage.NotFound? ==> MatchRoute(s.table, r.verb, r.path) == None)
  }

  /** Phases are in order: the lock is only held while mutable, the router is frozen before the handler is built. */
  ghost predicate PhaseOk(s: App) {
    && (s.lock.Some? ==> s.prep == Mutable)
    && (s.once in {ConfigFrozen, RouterFrozen, Built} ==> s.prep != Mutable)
    && (s.once in {RouterFrozen, Built} <==> s.table.frozen)
  }

  ghost predicate Inv(s: App, capacity: nat) {
    && PhaseOk(s) && TableOk(s.table) && Sound(s.cache, capacity)
    && (s.once == Built || s.cache == Fifo([], map[]))
    && Honest(s.cache, s.table)
    && (forall id :: id in s.requests ==> RequestOk(s, s.requests[id]))
  }

  lemma PutHonest(cache: Fifo<MatchResult>, capacity: nat, t: Table, verb: string, path: string, found: MatchResult)
    requires Honest(cache, t) && ValidMethod(verb) && MatchRoute(t, verb, path) == Some(found)
    ensures Honest(Put(cache, capacity, Key(verb, path), found), t)
  {
    var next := Put(cache, capacity, Key(verb, path), found);
    forall v, p | ValidMethod(v) && Key(v, p) in next.data
      ensures MatchRoute(t, v, p) == Some(next.data[Key(v, p)])
    {
      if Key(v, p) == Key(verb, path) {
        KeyInjective(v, p, verb, path);
      }
    }
  }

  lemma RegisterStepKeeps(s: App, capacity: nat)
    requires Inv(s, capacity) && s.lock.Some?
    ensures Inv(RegisterStep(s), capacity)
  {
    RegisterKeepsOk(s.table, s.lock.value);
    assert !s.table.frozen && s.once != Built;
  }

  lemma MoveKeeps(s: App, capacity: nat, id: nat, stage: Stage)
    requires Inv(s, capacity) && id in s.requests && RequestOk(s, s.requests[id].(stage := stage))
    ensures Inv(Move(s, id, stage), capacity)
  {
    var t := Move(s, id, stage);
    forall i | i in t.requests
      ensures RequestOk(t, t.requests[i])
    {
      assert i != id ==> RequestOk(s, s.requests[i]);
    }
  }

  lemma CacheKeeps(s: App, capacity: nat, cache: Fifo<MatchResult>)
    requires Inv(s, capacity) && s.once == Built && Sound(cache, capacity) && Honest(cache, s.table)
    ensures Inv(s.(cache := cache), capacity)
  {
    var t := s.(cache := cache);
    forall i | i in t.requests
      ensures RequestOk(t, t.requests[i])
    {
      assert RequestOk(s, s.requests[i]);
    }
  }

  lemma LookupKeeps(s: App, capacity: nat, id: nat)
    requires Inv(s, capacity) && At(s, id, Looking)
    ensures Inv(RequestStep(s, capacity, id), capacity)
  {
    var r := s.requests[id];
    assert RequestOk(s, r);
    if Key(r.verb, r.path) in s.cache.data {
      MoveKeeps(s, capacity, id, Served(s.cache.data[Key(r.verb, r.path)]));
    } else {
      MoveKeeps(s, capacity, id, Matching);
    }
  }

  lemma MatchKeeps(s: App, capacity: nat, id: nat)
    requires Inv(s, capacity) && At(s, id, Matching)
    ensures Inv(RequestStep(s, capacity, id), capacity)
  {
    var r := s.requests[id];
    assert RequestOk(s, r);
    var m := MatchRoute(s.table, r.verb, r.path);
    MoveKeeps(s, capacity, id, if m.Some? then Storing(m.value) else NotFound);
  }

  lemma StoreKeeps(s: App, capacity: nat, id: nat)
    requires Inv(s, capacity) && capacity > 0 && id in s.requests && s.requests[id].stage.Storing?
    ensures Inv(RequestStep(s, capacity, id), capacity)
  {
    var r := s.requests[id];
    assert RequestOk(s, r);
    PutSound(s.cache, capacity, Key(r.verb, r.path), r.stage.found);
    PutHonest(s.cache, capacity, s.table, r.verb, r.path, r.stage.found);
    MoveKeeps(s, capacity, id, Served(r.stage.found));
    CacheKeeps(Move(s, id, Served(r.stage.found)), capacity, Put(s.cache, capacity, Key(r.verb, r.path), r.stage.found));
  }

  lemma ArriveKeeps(s: App, capacity: nat, id: nat, verb: string, url: string)
    requires Inv(s, capacity)
    ensures Inv(Step(s, capacity, Arrive(id, verb, url)), capacity)
  {
    NormalizersIdempotent(url);
  }

  /** Steps of the once-body and of the server: nothing is cached before the table is frozen. */
  lemma PhaseStepKeeps(s: App, capacity: nat, a: Action)
    requires Inv(s, capacity)
    requires a.BeginRegister? || a.EnterOnce? || a.FreezeConfig? || a.FreezeRouter? || a.BuildHandler? || a.InstallServer?
    ensures Inv(Step(s, capacity, a), capacity)
  {
  }

  lemma PassOnceKeeps(s: App, capacity: nat, id: nat)
    requires Inv(s, capacity)
    ensures Inv(Step(s, capacity, PassOnce(id)), capacity)
  {
  }

  lemma StepKeeps(s: App, capacity: nat, a: Action)
    requires Inv(s, capacity) && capacity > 0
    ensures Inv(Step(s, capacity, a), capacity)
  {
    match a
    case EndRegister => if s.lock.Some? { RegisterStepKeeps(s, capacity); }
    case Lookup(id) => if At(s, id, Looking) { LookupKeeps(s, capacity, id); }
    case Match(id) => if At(s, id, Matching) { MatchKeeps(s, capacity, id); }
    case Store(id) => if id in s.requests && s.requests[id].stage.Storing? { StoreKeeps(s, capacity, id); }
    case Arrive(id, verb, url) => ArriveKeeps(s, capacity, id, verb, url);
    case PassOnce(id) => PassOnceKeeps(s, capacity, id);
    case _ => PhaseStepKeeps(s, capacity, a);
  }

  lemma {:induction false} EveryRunOk(actions: seq<Action>, capacity: nat)
    requires capacity > 0
    ensures Inv(Run(actions, capacity), capacity)
  {
    if actions == [] {
      EmptyTableOk();
    } else {
      EveryRunOk(actions[..|actions| - 1], capacity);
      StepKeeps(Run(actions[..|actions| - 1], capacity), capacity, actions[|actions| - 1]);
    }
  }

  // What every run guarantees

  /** Once the router is frozen no step changes the table. */
  lemma FrozenStays(s: App, capacity: nat, a: Action)
    requires Inv(s, capacity) && s.table.frozen
    ensures Step(s, capacity, a).table == s.table
  {
  }

  lemma {:induction false} FrozenForever(actions: seq<Action>, more: seq<Action>, capacity: nat)
    requires capacity > 0 && Run(actions, capacity).table.frozen
    ensures Run(actions + more, capacity).table == Run(actions, capacity).table
  {
    if more == [] {
      assert actions + more == actions;
    } else {
      var front := actions + more[..|more| - 1];
      FrozenForever(actions, more[..|more| - 1], capacity);
      EveryRunOk(front, capacity);
      assert (actions + more)[..|actions + more| - 1] == front;
      FrozenStays(Run(front, capacity), capacity, more[|more| - 1]);
    }
  }

  /**
   Whatever the interleaving: a request past the once-gate runs on a frozen router, and what it is
   served, from the cache or not, is what matching gives on the final table of every continuation.
   */
  lemma ServedIsFinalMatch(actions: seq<Action>, more: seq<Action>, capacity: nat, id: nat)
    requires capacity > 0 && id in Run(actions, capacity).requests
    requires Run(actions, capacity).requests[id].stage != Arrived
    ensures Run(actions, capacity).table.frozen
    ensures var r := Run(actions, capacity).requests[id];
            var final := Run(actions + more, capacity).table;
            && (r.stage.Served? ==> MatchRoute(final, r.verb, r.path) == Some(r.stage.result))
            && (r.stage.NotFound? ==> MatchRoute(final, r.verb, r.path) == None)
  {
    EveryRunOk(actions, capacity);
    assert RequestOk(Run(actions, capacity), Run(actions, capacity).requests[id]);
    FrozenForever(actions, more, capacity);
  }

  // What the table is, from the actions alone

  /** The registration under way, whether registration has ended, and the registrations carried out, in order. */
  datatype Gate = Gate(held: Option<Registration>, closed: bool, done: seq<Registration>)

  function GateAfter(actions: seq<Action>): Gate {
    if actions == [] then Gate(None, false, [])
    else
      var front := actions[..|actions| - 1];
      var g := GateAfter(front);
      match actions[|actions| - 1]
      case BeginRegister(reg) => if g.held.None? && !g.closed then g.(held := Some(reg)) else g
      case EndRegister => if g.held.Some? then Gate(None, g.closed, g.done + [g.held.value]) else g
      case FreezeConfig => if EnterOnce in front && g.held.None? then g.(closed := true) else g
      case _ => g
  }

  ghost predicate Tracks(s: App, g: Gate, entered: bool) {
    && s.lock == g.held && (s.prep == Mutable <==> !g.closed) && (s.once in {Idle, Entered} <==> !g.closed)
    && (s.once != Idle <==> entered)
  }

  lemma {:induction false} GateTracks(actions: seq<Action>, capacity: nat)
    ensures Tracks(Run(actions, capacity), GateAfter(actions), EnterOnce in actions)
  {
    if actions != [] {
      var front, last := actions[..|actions| - 1], actions[|actions| - 1];
      GateTracks(front, capacity);
      assert actions == front + [last];
    }
  }

  /** Only the end of a registration changes the routes. */
  lemma TableStep(s: App, capacity: nat, a: Action)
    requires PhaseOk(s)
    ensures var open, after := s.table.(frozen := false), Step(s, capacity, a).table.(frozen := false);
            after == if a.EndRegister? && s.lock.Some? then Register(open, s.lock.value) else open
  {
    if a.EndRegister? && s.lock.Some? {
      assert s.table.(frozen := false) == s.table;
    }
  }

  lemma RegisterSnoc(regs: seq<Registration>, reg: Registration)
    ensures RegisterAll(regs + [reg]) == Register(RegisterAll(regs), reg)
  {
    assert (regs + [reg])[..|regs|] == regs;
  }

  lemma GateStep(front: seq<Action>, last: Action)
    ensures var g := GateAfter(front);
            GateAfter(front + [last]).done == if last.EndRegister? && g.held.Some? then g.done + [g.held.value] else g.done
  {
    assert (front + [last])[..|front|] == front;
  }

  /** In every interleaving the table is that of the registrations carried out before the freeze. */
  lemma {:induction false} TableIsRegistered(actions: seq<Action>, capacity: nat)
    requires capacity > 0
    ensures Run(actions, capacity).table.(frozen := false) == RegisterAll(GateAfter(actions).done)
  {
    if actions != [] {
      var front, last := actions[..|actions| - 1], actions[|actions| - 1];
      TableIsRegistered(front, capacity);
      GateTracks(front, capacity);
      EveryRunOk(front, capacity);
      assert actions == front + [last];
      TableStep(Run(front, capacity), capacity, last);
      GateStep(front, last);
      RegisteredStep(GateAfter(front), last, GateAfter(actions).done);
    }
  }

  lemma RegisteredStep(g: Gate, last: Action, done: seq<Registration>)
    requires done == if last.EndRegister? && g.held.Some? then g.done + [g.held.value] else g.done
    ensures RegisterAll(done) ==
            if last.EndRegister? && g.held.Some? then Register(RegisterAll(g.done), g.held.value) else RegisterAll(g.done)
  {
    if last.EndRegister? && g.held.Some? {
      RegisterSnoc(g.done, g.held.value);
    }
  }

  lemma FrozenMatches(t: Table, frozen: bool, verb: string, path: string)
    ensures MatchRoute(t.(frozen := frozen), verb, path) == MatchRoute(t, verb, path)
  {
  }

  /** A request is answered, from the cache or not, as a router with exactly those registrations answers it. */
  lemma ServedAsRegistered(actions: seq<Action>, capacity: nat, id: nat)
    requires capacity > 0 && id in Run(actions, capacity).requests
    ensures var r := Run(actions, capacity).requests[id];
            var registered := RegisterAll(GateAfter(actions).done);
            && (r.stage.Served? ==> MatchRoute(registered, r.verb, r.path) == Some(r.stage.result))
            && (r.stage.NotFound? ==> MatchRoute(registered, r.verb, r.path) == None)
  {
    var s := Run(actions, capacity);
    EveryRunOk(actions, capacity);
    TableIsRegistered(actions, capacity);
    assert RequestOk(s, s.requests[id]);
    FrozenMatches(s.table, false, s.requests[id].verb, s.requests[id].path);
  }

  /** No request is stuck: four steps of its own finish one that arrived at a built handler. */
  lemma RequestCanFinish(s: App, capacity: nat, id: nat)
    requires At(s, id, Arrived) && s.once == Built
    ensures var t := Step(Step(Step(Step(s, capacity, PassOnce(id)), capacity, Lookup(id)), capacity, Match(id)), capacity, Store(id));
            id in t.requests && (t.requests[id].stage.Served? || t.requests[id].stage.NotFound?)
  {
    var looking := Step(s, capacity, PassOnce(id));
    assert At(looking, id, Looking);
    var found := Step(looking, capacity, Lookup(id));
    assert id in found.requests && (found.requests[id].stage.Served? || found.requests[id].stage.Matching?);
  }
}
