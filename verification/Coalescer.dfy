/**
 The coalescing protocol as a step system: arrivals, handler calls, returns, panics, removal from
 the in-flight map, channel close, wake-ups, timeouts and cancellations in any order.
 */
module Coalescer {
  import opened Text
  import opened Responses
  import opened Singleflight

  /** The leader: in the handler, past it, past the map removal, past `close(done)`. */
  datatype Phase = Running | Recorded | Removed | Done

  /** One `inFlightRequest`. `calls` is what its handler did; `closes` counts closes of `done`. */
  datatype Flight = Flight(
    key: string, phase: Phase, calls: History, panicked: bool, err: Option<Error>, response: Option<Response>,
    closes: nat)

  /** What a waiter's client gets. */
  datatype Reply = Reply(head: Head, body: string)

  datatype Stage = Leading | Waiting | Replayed(reply: Reply) | Failed(error: Error) | TimedOut | Cancelled

  /** `flight` is the record the request created or joined. */
  datatype Request = Request(key: string, isHead: bool, flight: nat, stage: Stage)

  datatype State = State(inFlight: map<string, nat>, flights: seq<Flight>, requests: map<nat, Request>)

  datatype Config = Config(maxBytes: int, addHeader: bool)

  datatype Action =
    | Arrive(id: nat, key: string, isHead: bool)
    | HandlerCall(f: nat, call: Call)
    | Return(f: nat)
    | Panic(f: nat)
    | Remove(f: nat)
    | Close(f: nat)
    | Wake(id: nat)
    | TimeOut(id: nat)
    | Cancel(id: nat)

  const Initial := State(map[], [], map[])

  function NewFlight(key: string): Flight {
    Flight(key, Running, Fresh, false, None, None, 0)
  }

  function Join(s: State, id: nat, key: string, isHead: bool): State {
    if key in s.inFlight then s.(requests := s.requests[id := Request(key, isHead, s.inFlight[key], Waiting)])
    else
      State(s.inFlight[key := |s.flights|], s.flights + [NewFlight(key)],
            s.requests[id := Request(key, isHead, |s.flights|, Leading)])
  }

  predicate In(s: State, f: nat, phase: Phase) {
    f < |s.flights| && s.flights[f].phase == phase
  }

  predicate Waits(s: State, id: nat) {
    id in s.requests && s.requests[id].stage == Waiting
  }

  function SetFlight(s: State, f: nat, x: Flight): State
    requires f < |s.flights|
  {
    s.(flights := s.flights[f := x])
  }

  function SetStage(s: State, id: nat, stage: Stage): State
    requires id in s.requests
  {
    s.(requests := s.requests[id := s.requests[id].(stage := stage)])
  }

  function Finish(x: Flight, c: Config): Flight {
    match Capture(x.calls, c.maxBytes)
    case Ok(r) => x.(phase := Recorded, response := Some(r))
    case Err(e) => x.(phase := Recorded, err := Some(e))
  }

  /** `writeResponse`. */
  function Replay(r: Response, isHead: bool, c: Config): Reply {
    Reply(Head(r.status, if c.addHeader then r.header["X-Coalesced" := ["true"]] else r.header), if isHead then "" else r.body)
  }

  /** The `done` case of `waitForInFlight`. */
  function Woken(x: Flight, isHead: bool, c: Config): Stage {
    if x.err.Some? then Failed(x.err.value)
    else if x.response.None? then Failed(UpstreamPanic)
    else Replayed(Replay(x.response.value, isHead, c))
  }

  /** A step that is not enabled changes nothing. */
  function Step(s: State, c: Config, a: Action): State {
    match a
    case Arrive(id, key, isHead) => if id in s.requests then s else Join(s, id, key, isHead)
    case HandlerCall(f, call) =>
      if In(s, f, Running) then SetFlight(s, f, s.flights[f].(calls := Then(s.flights[f].calls, call))) else s
    case Return(f) => if In(s, f, Running) then SetFlight(s, f, Finish(s.flights[f], c)) else s
    case Panic(f) =>
      if In(s, f, Running) then SetFlight(s, f, s.flights[f].(phase := Recorded, panicked := true, err := Some(UpstreamPanic)))
      else s
    case Remove(f) =>
      if In(s, f, Recorded) then
        SetFlight(s, f, s.flights[f].(phase := Removed)).(inFlight := s.inFlight - {s.flights[f].key})
      else s
    case Close(f) =>
      if In(s, f, Removed) then SetFlight(s, f, s.flights[f].(phase := Done, closes := s.flights[f].closes + 1)) else s
    case Wake(id) =>
      if Waits(s, id) && s.requests[id].flight < |s.flights| && s.flights[s.requests[id].flight].closes > 0 then
        SetStage(s, id, Woken(s.flights[s.requests[id].flight], s.requests[id].isHead, c))
      else s
    case TimeOut(id) => if Waits(s, id) then SetStage(s, id, TimedOut) else s
    case Cancel(id) => if Waits(s, id) then SetStage(s, id, Cancelled) else s
  }

  function Run(actions: seq<Action>, c: Config): State {
    if actions == [] then Initial else Step(Run(actions[..|actions| - 1], c), c, actions[|actions| - 1])
  }

  // Invariant

  /** What a record holds in each phase. */
  ghost predicate FlightOk(x: Flight, c: Config) {
    && x.closes == (if x.phase == Done then 1 else 0)
    && (x.phase == Running ==> !x.panicked && x.err == None && x.response == None)
    && (x.phase != Running && x.panicked ==> x.err == Some(UpstreamPanic) && x.response == None)
    && (x.phase != Running && !x.panicked ==>
          match Capture(x.calls, c.maxBytes)
          case Ok(r) => x.err == None && x.response == Some(r)
          case Err(e) => x.err == Some(e) && x.response == None)
  }

  /** A record is in the map under its key exactly until it is removed. */
  ghost predicate Mapped(s: State, f: nat)
    requires f < |s.flights|
  {
    s.flights[f].phase in {Running, Recorded} <==> (s.flights[f].key in s.inFlight && s.inFlight[s.flights[f].key] == f)
  }

  /** What a request past its wait was given. */
  ghost predicate RequestOk(s: State, c: Config, r: Request) {
    && r.flight < |s.flights| && s.flights[r.flight].key == r.key
    && (r.stage.Replayed? || r.stage.Failed? ==>
          s.flights[r.flight].phase == Done && r.stage == Woken(s.flights[r.flight], r.isHead, c))
  }

  ghost predicate FlightsOk(s: State, c: Config) {
    forall f: nat {:trigger Mapped(s, f)} :: f < |s.flights| ==> FlightOk(s.flights[f], c) && Mapped(s, f)
  }

  ghost predicate MapOk(s: State) {
    forall k :: k in s.inFlight ==> s.inFlight[k] < |s.flights| && s.flights[s.inFlight[k]].key == k
  }

  ghost predicate RequestsOk(s: State, c: Config) {
    forall id :: id in s.requests ==> RequestOk(s, c, s.requests[id])
  }

  ghost predicate Inv(s: State, c: Config) {
    FlightsOk(s, c) && MapOk(s) && RequestsOk(s, c)
  }

  lemma JoinKeeps(s: State, c: Config, id: nat, key: string, isHead: bool)
    requires Inv(s, c) && id !in s.requests
    ensures Inv(Join(s, id, key, isHead), c)
  {
    var t := Join(s, id, key, isHead);
    forall f: nat | f < |t.flights|
      ensures FlightOk(t.flights[f], c) && Mapped(t, f)
    {
      if f < |s.flights| {
        assert Mapped(s, f);
      }
    }
    forall i | i in t.requests
      ensures RequestOk(t, c, t.requests[i])
    {
      if i != id {
        assert RequestOk(s, c, s.requests[i]);
      }
    }
  }

  /** A leader's step that keeps the map: the record changes before it is done and stays well-formed. */
  lemma SetFlightKeeps(s: State, c: Config, f: nat, x: Flight)
    requires Inv(s, c) && f < |s.flights|
    requires x.key == s.flights[f].key && FlightOk(x, c)
    requires s.flights[f].phase != Done
    requires x.phase in {Running, Recorded} <==> s.flights[f].phase in {Running, Recorded}
    ensures Inv(SetFlight(s, f, x), c)
  {
    var t := SetFlight(s, f, x);
    forall g: nat | g < |t.flights|
      ensures FlightOk(t.flights[g], c) && Mapped(t, g)
    {
      assert Mapped(s, g);
    }
    forall i | i in t.requests
      ensures RequestOk(t, c, t.requests[i])
    {
      assert RequestOk(s, c, s.requests[i]);
    }
  }

  lemma RemoveKeeps(s: State, c: Config, f: nat)
    requires Inv(s, c) && In(s, f, Recorded)
    ensures Inv(Step(s, c, Remove(f)), c)
  {
    var t := Step(s, c, Remove(f));
    assert Mapped(s, f);
    forall g: nat | g < |t.flights|
      ensures FlightOk(t.flights[g], c) && Mapped(t, g)
    {
      assert Mapped(s, g);
    }
    forall i | i in t.requests
      ensures RequestOk(t, c, t.requests[i])
    {
      assert RequestOk(s, c, s.requests[i]);
    }
  }

  lemma SetStageKeeps(s: State, c: Config, id: nat, stage: Stage)
    requires Inv(s, c) && id in s.requests && RequestOk(s, c, s.requests[id].(stage := stage))
    ensures Inv(SetStage(s, id, stage), c)
  {
    var t := SetStage(s, id, stage);
    forall f: nat | f < |t.flights|
      ensures FlightOk(t.flights[f], c) && Mapped(t, f)
    {
      assert Mapped(s, f);
    }
    forall i | i in t.requests
      ensures RequestOk(t, c, t.requests[i])
    {
      assert RequestOk(s, c, s.requests[i]);
    }
  }

  lemma StepKeeps(s: State, c: Config, a: Action)
    requires Inv(s, c)
    ensures Inv(Step(s, c, a), c)
  {
    match a
    case Arrive(id, key, isHead) => if id !in s.requests { JoinKeeps(s, c, id, key, isHead); }
    case HandlerCall(f, call) =>
      if In(s, f, Running) {
        assert Mapped(s, f);
        SetFlightKeeps(s, c, f, s.flights[f].(calls := Then(s.flights[f].calls, call)));
      }
    case Return(f) =>
      if In(s, f, Running) {
        assert Mapped(s, f);
        SetFlightKeeps(s, c, f, Finish(s.flights[f], c));
      }
    case Panic(f) =>
      if In(s, f, Running) {
        assert Mapped(s, f);
        SetFlightKeeps(s, c, f, s.flights[f].(phase := Recorded, panicked := true, err := Some(UpstreamPanic)));
      }
    case Remove(f) => if In(s, f, Recorded) { RemoveKeeps(s, c, f); }
    case Close(f) =>
      if In(s, f, Removed) {
        assert Mapped(s, f);
        SetFlightKeeps(s, c, f, s.flights[f].(phase := Done, closes := s.flights[f].closes + 1));
      }
    case Wake(id) =>
      if Waits(s, id) {
        var r := s.requests[id];
        assert RequestOk(s, c, r) && Mapped(s, r.flight);
        if s.flights[r.flight].closes > 0 {
          SetStageKeeps(s, c, id, Woken(s.flights[r.flight], r.isHead, c));
        }
      }
    case TimeOut(id) => if Waits(s, id) { SetStageKeeps(s, c, id, TimedOut); }
    case Cancel(id) => if Waits(s, id) { SetStageKeeps(s, c, id, Cancelled); }
  }

  lemma {:induction false} EveryRunOk(actions: seq<Action>, c: Config)
    ensures Inv(Run(actions, c), c)
  {
    if actions != [] {
      EveryRunOk(actions[..|actions| - 1], c);
      StepKeeps(Run(actions[..|actions| - 1], c), c, actions[|actions| - 1]);
    }
  }

  // What every run guarantees

  /** At most one downstream call per key runs at a time. */
  lemma OneCallPerKey(actions: seq<Action>, c: Config, f: nat, g: nat)
    requires In(Run(actions, c), f, Running) && In(Run(actions, c), g, Running)
    requires Run(actions, c).flights[f].key == Run(actions, c).flights[g].key
    ensures f == g
  {
    EveryRunOk(actions, c);
    assert Mapped(Run(actions, c), f) && Mapped(Run(actions, c), g);
  }

  /** `done` is closed at most once, and only when no key leads to its record any more. */
  lemma ClosedOnceAfterRemoval(actions: seq<Action>, c: Config, f: nat)
    requires f < |Run(actions, c).flights|
    ensures var s := Run(actions, c);
            && s.flights[f].closes <= 1
            && (s.flights[f].closes == 1 ==> forall k :: k in s.inFlight ==> s.inFlight[k] != f)
  {
    EveryRunOk(actions, c);
    assert Mapped(Run(actions, c), f);
  }

  /** An arrival joins the record its key leads to, not yet removed, or else leads a new one. */
  lemma JoinsRunningFlight(actions: seq<Action>, c: Config, id: nat, key: string, isHead: bool)
    requires id !in Run(actions, c).requests
    ensures var s, t := Run(actions, c), Step(Run(actions, c), c, Arrive(id, key, isHead));
            var f := t.requests[id].flight;
            && (key in s.inFlight <==> t.requests[id].stage == Waiting)
            && (key in s.inFlight ==> In(s, f, Running) || In(s, f, Recorded))
            && f < |t.flights| && t.flights[f].key == key
            && (key !in s.inFlight ==> f == |s.flights| && t.flights[f] == NewFlight(key))
  {
    EveryRunOk(actions, c);
    var s := Run(actions, c);
    if key in s.inFlight {
      assert Mapped(s, s.inFlight[key]);
    }
  }

  /**
   What a woken waiter gets. It replays exactly when the leader it joined did not panic, fit the
   limit and did not stream; then it gets the committed status and headers and every byte written
   (none for HEAD). Otherwise it fails and gets no part of the response.
   */
  lemma WakeGivesLeaderResponse(actions: seq<Action>, c: Config, id: nat)
    requires id in Run(actions, c).requests
    requires Run(actions, c).requests[id].stage.Replayed? || Run(actions, c).requests[id].stage.Failed?
    requires Run(actions, c).requests[id].flight < |Run(actions, c).flights|
    ensures var r := Run(actions, c).requests[id];
            var x := Run(actions, c).flights[r.flight];
            && x.phase == Done && x.key == r.key
            && (r.stage.Replayed? <==> !x.panicked && !TooLarge(x.calls, c.maxBytes) && !Streams(x.calls))
            && (r.stage.Replayed? ==>
                  && r.stage.reply.body == (if r.isHead then "" else BodyOf(x.calls))
                  && r.stage.reply.head.status == (if Committed(x.calls).Some? then Committed(x.calls).value.status else STATUS_OK)
                  && r.stage.reply.head.header - (if c.addHeader then {"X-Coalesced"} else {}) ==
                     (if Committed(x.calls).Some? then Committed(x.calls).value.header else HeaderOf(x.calls)) -
                     (if c.addHeader then {"X-Coalesced"} else {})
                  && (c.addHeader ==> "X-Coalesced" in r.stage.reply.head.header && r.stage.reply.head.header["X-Coalesced"] == ["true"]))
            && (r.stage.Failed? ==>
                  r.stage.error == if x.panicked then UpstreamPanic
                                   else if c.maxBytes > 0 && |BodyOf(x.calls)| > c.maxBytes then ResponseTooLarge
                                   else Unreplayable)
  {
    var s := Run(actions, c);
    var r := s.requests[id];
    EveryRunOk(actions, c);
    assert RequestOk(s, c, r) && Mapped(s, r.flight);
    ReplayBody(s.flights[r.flight].calls, c.maxBytes);
  }

  lemma ReplayBody(calls: History, maxBytes: int)
    ensures Capture(calls, maxBytes).Ok? ==> Capture(calls, maxBytes).response.body == BodyOf(calls)
  {
    if Capture(calls, maxBytes).Ok? {
      ReplayIsSent(calls, maxBytes);
    }
  }

  /** No waiter is stuck: once the handler it waits for has ended, three steps of its leader and its own suffice. */
  lemma WaiterCanFinish(actions: seq<Action>, c: Config, id: nat)
    requires Waits(Run(actions, c), id)
    requires !In(Run(actions, c), Run(actions, c).requests[id].flight, Running)
    ensures var f := Run(actions, c).requests[id].flight;
            var t := Step(Step(Step(Run(actions, c), c, Remove(f)), c, Close(f)), c, Wake(id));
            t.requests[id].stage.Replayed? || t.requests[id].stage.Failed?
  {
    EveryRunOk(actions, c);
    var s := Run(actions, c);
    var f := s.requests[id].flight;
    assert RequestOk(s, c, s.requests[id]) && Mapped(s, f);
    RemoveStep(s, c, f);
    var t := Step(s, c, Remove(f));
    CloseStep(t, c, f);
    var u := Step(t, c, Close(f));
    WakeStep(u, c, id);
  }

  lemma RemoveStep(s: State, c: Config, f: nat)
    requires f < |s.flights| && s.flights[f].phase != Running
    ensures var t := Step(s, c, Remove(f));
            && t.requests == s.requests && |t.flights| == |s.flights| && t.flights[f].closes == s.flights[f].closes
            && t.flights[f].phase == if s.flights[f].phase == Recorded then Removed else s.flights[f].phase
  {
  }

  lemma CloseStep(s: State, c: Config, f: nat)
    requires f < |s.flights| && (s.flights[f].phase == Removed || s.flights[f].closes > 0)
    ensures var t := Step(s, c, Close(f));
            t.requests == s.requests && |t.flights| == |s.flights| && t.flights[f].closes > 0
  {
  }

  lemma WakeStep(s: State, c: Config, id: nat)
    requires Waits(s, id) && s.requests[id].flight < |s.flights| && s.flights[s.requests[id].flight].closes > 0
    ensures var t := Step(s, c, Wake(id));
            id in t.requests && (t.requests[id].stage.Replayed? || t.requests[id].stage.Failed?)
  {
  }
}
