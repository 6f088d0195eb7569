/**
 The timeout middleware: the buffering writer, and the race between the handler's goroutine, the
 request's goroutine and the deadline as a step system with arbitrary interleaving.
 */
module Timeout {
  import opened Text
  import opened Responses

  // The writer

  /** One call of the handler; a write also says whether the context had expired. */
  datatype Event = Edit(header: Header) | WriteHeader(status: int) | Write(data: string, expired: bool)

  datatype Events = Start | Next(before: Events, event: Event)

  function HeaderAfter(es: Events): Header {
    match es
    case Start => map[]
    case Next(before, e) => if e.Edit? then e.header else HeaderAfter(before)
  }

  /** Everything the handler wrote. */
  function Written(es: Events): string {
    match es
    case Start => ""
    case Next(before, e) => Written(before) + if e.Write? then e.data else ""
  }

  /** What it wrote before the context expired. */
  function InTime(es: Events): string {
    match es
    case Start => ""
    case Next(before, e) => InTime(before) + if e.Write? && !e.expired then e.data else ""
  }

  /** The first status line; a write in time chooses 200. */
  function StatusAfter(es: Events): Option<int> {
    match es
    case Start => None
    case Next(before, e) =>
      if StatusAfter(before).Some? then StatusAfter(before)
      else if e.WriteHeader? then Some(e.status)
      else if e.Write? && !e.expired then Some(STATUS_OK)
      else None
  }

  datatype Config = Config(maxBuffer: int, maxReplay: int, hasOnPanic: bool)

  predicate Oversized(es: Events, c: Config) {
    |InTime(es)| > c.maxBuffer || |InTime(es)| > c.maxReplay
  }

  datatype Reply = Replay(head: Head, body: string) | ServerError

  /** What the client gets when the handler is done in time. */
  function ReplyTo(es: Events, c: Config): Reply {
    if Oversized(es, c) then ServerError
    else
      var status := StatusAfter(es);
      Replay(Head(if status.None? || status.value == 0 then STATUS_OK else status.value, EnsureNoSniff(HeaderAfter(es))),
             InTime(es))
  }

  predicate LostWrite(es: Events) {
    es.Next? && (LostWrite(es.before) || (es.event.Write? && es.event.expired && es.event.data != ""))
  }

  /** Expired writes are refused, so a replay is complete exactly when none of them carried bytes. */
  lemma {:induction false} ReplayComplete(es: Events)
    ensures InTime(es) == Written(es) <==> !LostWrite(es)
    ensures |InTime(es)| <= |Written(es)|
    ensures LostWrite(es) ==> |InTime(es)| < |Written(es)|
  {
    if es.Next? {
      ReplayComplete(es.before);
    }
  }

  // What the head of a replay is, from the list of calls

  function Listed(es: Events): seq<Event> {
    match es
    case Start => []
    case Next(before, e) => Listed(before) + [e]
  }

  /** A call that chooses the status: a status line, or a write in time. */
  predicate Opens(e: Event) {
    e.WriteHeader? || (e.Write? && !e.expired)
  }

  ghost predicate Silent(calls: seq<Event>) {
    forall i :: 0 <= i < |calls| ==> !Opens(calls[i])
  }

  ghost predicate FirstOpening(calls: seq<Event>, k: nat) {
    k < |calls| && Opens(calls[k]) && forall i :: 0 <= i < k ==> !Opens(calls[i])
  }

  ghost predicate LastEdit(calls: seq<Event>, k: nat) {
    k < |calls| && calls[k].Edit? && forall i :: k < i < |calls| ==> !calls[i].Edit?
  }

  /** The status of the first call that chooses one, with 200 for a write, for zero and for none. */
  ghost predicate StatusFits(status: int, calls: seq<Event>) {
    && (Silent(calls) ==> status == STATUS_OK)
    && (forall k: nat :: FirstOpening(calls, k) ==>
          status == if calls[k].WriteHeader? && calls[k].status != 0 then calls[k].status else STATUS_OK)
  }

  /** The header as the last edit left it, with "nosniff" where that field is empty. */
  ghost predicate HeaderFits(h: Header, calls: seq<Event>) {
    && ((forall i :: 0 <= i < |calls| ==> !calls[i].Edit?) ==> Guarded(h, map[]))
    && (forall k: nat :: LastEdit(calls, k) ==> Guarded(h, calls[k].header))
  }

  lemma SilentSnoc(l: seq<Event>, e: Event)
    ensures Silent(l + [e]) <==> Silent(l) && !Opens(e)
  {
    assert (l + [e])[|l|] == e;
    if Silent(l + [e]) {
      assert forall i :: 0 <= i < |l| ==> l[i] == (l + [e])[i];
    }
  }

  lemma {:induction false} NoStatus(es: Events)
    ensures StatusAfter(es).None? <==> Silent(Listed(es))
  {
    if es.Next? {
      NoStatus(es.before);
      SilentSnoc(Listed(es.before), es.event);
    }
  }

  lemma {:induction false} StatusIsFirst(es: Events, k: nat)
    requires FirstOpening(Listed(es), k)
    ensures var e := Listed(es)[k]; StatusAfter(es) == Some(if e.WriteHeader? then e.status else STATUS_OK)
  {
    var l := Listed(es.before);
    assert Listed(es)[|l|] == es.event;
    assert forall i :: 0 <= i < |l| ==> Listed(es)[i] == l[i];
    NoStatus(es.before);
    if k < |l| {
      StatusIsFirst(es.before, k);
    }
  }

  lemma {:induction false} NoEdit(es: Events)
    requires forall i :: 0 <= i < |Listed(es)| ==> !Listed(es)[i].Edit?
    ensures HeaderAfter(es) == map[]
  {
    if es.Next? {
      var l := Listed(es.before);
      assert Listed(es)[|l|] == es.event;
      assert forall i :: 0 <= i < |l| ==> Listed(es)[i] == l[i];
      NoEdit(es.before);
    }
  }

  lemma {:induction false} HeaderIsLast(es: Events, k: nat)
    requires LastEdit(Listed(es), k)
    ensures HeaderAfter(es) == Listed(es)[k].header
  {
    var l := Listed(es.before);
    assert Listed(es)[|l|] == es.event;
    if k < |l| {
      assert forall i :: 0 <= i < |l| ==> Listed(es)[i] == l[i];
      HeaderIsLast(es.before, k);
    }
  }

  lemma StatusLaw(es: Events)
    ensures var status := StatusAfter(es);
            StatusFits(if status.None? || status.value == 0 then STATUS_OK else status.value, Listed(es))
  {
    NoStatus(es);
    forall k: nat | FirstOpening(Listed(es), k)
      ensures var e := Listed(es)[k]; StatusAfter(es) == Some(if e.WriteHeader? then e.status else STATUS_OK)
    {
      StatusIsFirst(es, k);
    }
  }

  lemma HeaderLaw(es: Events)
    ensures HeaderFits(EnsureNoSniff(HeaderAfter(es)), Listed(es))
  {
    EnsureNoSniffGuards(HeaderAfter(es));
    if forall i :: 0 <= i < |Listed(es)| ==> !Listed(es)[i].Edit? {
      NoEdit(es);
    }
    forall k: nat | LastEdit(Listed(es), k)
      ensures HeaderAfter(es) == Listed(es)[k].header
    {
      HeaderIsLast(es, k);
    }
  }

  class TimeoutResponseWriter {
    const cfg: Config
    var header: Header
    var status: int
    var statusSet: bool
    var body: string
    var overflow: bool
    var bypassUsed: bool
    ghost var events: Events

    ghost predicate Valid()
      reads this
    {
      && cfg.maxBuffer > 0
      && header == HeaderAfter(events)
      && (overflow || bypassUsed <==> Oversized(events, cfg))
      && (!Oversized(events, cfg) ==>
            && body == InTime(events)
            && statusSet == StatusAfter(events).Some?
            && status == if statusSet then StatusAfter(events).value else STATUS_OK)
    }

    constructor (cfg: Config)
      requires cfg.maxBuffer > 0 && cfg.maxReplay > 0
      ensures Valid() && events == Start && this.cfg == cfg
    {
      this.cfg := cfg;
      header, status, statusSet, body := map[], STATUS_OK, false, "";
      overflow, bypassUsed := false, false;
      events := Start;
    }

    method EditHeader(h: Header)
      requires Valid()
      modifies this
      ensures Valid() && events == Next(old(events), Event.Edit(h))
    {
      header := h;
      events := Next(events, Event.Edit(h));
    }

    method WriteHeader(code: int)
      requires Valid()
      modifies this
      ensures Valid() && events == Next(old(events), Event.WriteHeader(code))
    {
      SetStatus(code);
      events := Next(events, Event.WriteHeader(code));
    }

    method SetStatus(code: int)
      modifies `status, `statusSet
      ensures statusSet && status == if old(statusSet) then old(status) else code
    {
      if !statusSet {
        status, statusSet := code, true;
      }
    }

    /** The buffer's own write, refused over its limit. */
    method Store(p: string) returns (ok: bool)
      modifies `status, `statusSet, `body
      ensures statusSet && status == if old(statusSet) then old(status) else STATUS_OK
      ensures ok <==> !(cfg.maxBuffer > 0 && |old(body)| + |p| > cfg.maxBuffer)
      ensures body == if ok then old(body) + p else old(body)
    {
      SetStatus(STATUS_OK);
      if cfg.maxBuffer > 0 && |body| + |p| > cfg.maxBuffer {
        return false;
      }
      body := body + p;
      return true;
    }

    method Write(p: string, expired: bool) returns (ok: bool)
      requires Valid()
      modifies this
      ensures Valid() && events == Next(old(events), Event.Write(p, expired))
      ensures ok <==> !expired && !overflow
    {
      events := Next(events, Event.Write(p, expired));
      assert |InTime(events)| >= |InTime(old(events))|;
      if expired || overflow {
        return false;
      }
      if bypassUsed {
        return true;
      }
      if |body| + |p| > cfg.maxReplay {
        bypassUsed := true;
        body := "";
        return true;
      }
      ok := Store(p);
      if !ok {
        overflow := true;
      }
    }

    /** The request goroutine's reading of the finished writer. */
    method Result() returns (r: Reply)
      requires Valid()
      ensures r == ReplyTo(events, cfg)
      ensures r.ServerError? <==> |InTime(events)| > cfg.maxBuffer || |InTime(events)| > cfg.maxReplay
      ensures r.Replay? ==>
                StatusFits(r.head.status, Listed(events)) && HeaderFits(r.head.header, Listed(events)) && r.body == InTime(events)
    {
      StatusLaw(events);
      HeaderLaw(events);
      if overflow || bypassUsed {
        return ServerError;
      }
      return Replay(Head(if status == 0 then STATUS_OK else status, EnsureNoSniff(header)), body);
    }
  }

  // The race

  datatype Handler =
    | Working
    | Returned(panicked: Option<string>)
    | Delivered(panicked: Option<string>)
    | Left(panicked: Option<string>)

  datatype Requester = Selecting | Received(panicked: Option<string>) | Panicked(value: string) | Replied(reply: Reply) | TimedOut

  /** `reraised` and `reported` count what became of a panic. */
  datatype State = State(
    expired: bool, handler: Handler, requester: Requester, events: Events, reraised: nat, reported: nat)

  /** `expired` in a write is set by the step, not by the handler. */
  datatype Action =
    | Expire
    | Call(event: Event)
    | Return
    | Panic(value: string)
    | Rendezvous
    | HandlerLeaves
    | RequesterLeaves
    | Finish

  const Initial := State(false, Working, Selecting, Start, 0, 0)

  predicate Enabled(s: State, a: Action) {
    match a
    case Expire => true
    case Call(e) => s.handler.Working? && (e.Write? ==> e.expired == s.expired)
    case Return => s.handler.Working?
    case Panic(_) => s.handler.Working?
    case Rendezvous => s.handler.Returned? && s.requester.Selecting?
    case HandlerLeaves => s.handler.Returned? && s.expired
    case RequesterLeaves => s.requester.Selecting? && s.expired
    case Finish => s.requester.Received?
  }

  function Step(s: State, c: Config, a: Action): State {
    if !Enabled(s, a) then s
    else
      match a
      case Expire => s.(expired := true)
      case Call(e) => s.(events := Next(s.events, e))
      case Return => s.(handler := Returned(None))
      case Panic(v) => s.(handler := Returned(Some(v)))
      case Rendezvous => s.(handler := Delivered(s.handler.panicked), requester := Received(s.handler.panicked))
      case HandlerLeaves =>
        s.(handler := Left(s.handler.panicked),
           reported := s.reported + if s.handler.panicked.Some? && c.hasOnPanic then 1 else 0)
      case RequesterLeaves => s.(requester := TimedOut)
      case Finish =>
        // Returning, or unwinding, cancels the context.
        if s.requester.panicked.Some? then
          s.(requester := Panicked(s.requester.panicked.value), reraised := s.reraised + 1, expired := true)
        else s.(requester := Replied(ReplyTo(s.events, c)), expired := true)
  }

  function Run(actions: seq<Action>, c: Config): State {
    if actions == [] then Initial else Step(Run(actions[..|actions| - 1], c), c, actions[|actions| - 1])
  }

  /** Both sides met on the channel, or neither did. */
  predicate Met(s: State) {
    && (s.handler.Delivered? <==> s.requester.Received? || s.requester.Panicked? || s.requester.Replied?)
    && (s.requester.Received? ==> s.requester.panicked == s.handler.panicked)
    && (s.requester.Panicked? ==> s.handler.panicked == Some(s.requester.value))
    && (s.requester.Replied? ==> s.handler.panicked == None)
  }

  predicate Inv(s: State, c: Config) {
    && Met(s)
    && (s.handler.Left? || s.requester.TimedOut? ==> s.expired)
    && (s.requester.Replied? ==> s.requester.reply == ReplyTo(s.events, c))
    && s.reraised == (if s.requester.Panicked? then 1 else 0)
    && s.reported == (if s.handler.Left? && s.handler.panicked.Some? && c.hasOnPanic then 1 else 0)
  }

  lemma {:induction false} EveryRunOk(actions: seq<Action>, c: Config)
    ensures Inv(Run(actions, c), c)
  {
    if actions != [] {
      EveryRunOk(actions[..|actions| - 1], c);
    }
  }

  // What every run guarantees

  predicate Over(s: State) {
    (s.handler.Delivered? || s.handler.Left?) && (s.requester.Panicked? || s.requester.Replied? || s.requester.TimedOut?)
  }

  /** Steps the two goroutines still have to take. */
  function Pending(s: State): nat {
    (match s.handler case Working => 2 case Returned(_) => 1 case _ => 0) +
    (match s.requester case Selecting => 2 case Received(_) => 1 case _ => 0)
  }

  /** A step of the channel, the context branches or the reply. */
  predicate Closing(a: Action) {
    a.Rendezvous? || a.HandlerLeaves? || a.RequesterLeaves? || a.Finish?
  }

  /** The closing step that is open once the handler has returned. */
  function NextClosing(s: State): Action {
    if s.requester.Received? then Finish
    else if s.handler.Returned? && s.requester.Selecting? then Rendezvous
    else if s.handler.Returned? then HandlerLeaves
    else RequesterLeaves
  }

  /** Neither goroutine gets stuck: after the handler returns a closing step is always open, and no step adds work. */
  lemma NeverStuck(actions: seq<Action>, c: Config, a: Action)
    ensures var s := Run(actions, c);
            && Pending(Step(s, c, a)) <= Pending(s)
            && (Enabled(s, a) && Closing(a) ==> Pending(Step(s, c, a)) < Pending(s))
            && (!s.handler.Working? && !Over(s) ==> Closing(NextClosing(s)) && Enabled(s, NextClosing(s)))
            && (Pending(s) == 0 <==> Over(s))
  {
    EveryRunOk(actions, c);
  }

  /** At most three closing steps end both goroutines. */
  lemma {:induction false} EndsFromHere(actions: seq<Action>, c: Config) returns (rest: seq<Action>)
    requires !Run(actions, c).handler.Working?
    ensures |rest| <= Pending(Run(actions, c)) <= 3 && Over(Run(actions + rest, c))
    ensures forall a :: a in rest ==> Closing(a)
    decreases Pending(Run(actions, c))
  {
    var s := Run(actions, c);
    NeverStuck(actions, c, NextClosing(s));
    if Over(s) {
      rest := [];
      assert actions + rest == actions;
    } else {
      var a := NextClosing(s);
      assert (actions + [a])[..|actions|] == actions;
      var more := EndsFromHere(actions + [a], c);
      rest := [a] + more;
      assert actions + rest == actions + [a] + more;
    }
  }

  /**
   At the end either both sides met or both left through the context. A panic is re-raised exactly
   when they met, reported exactly when they did not and a callback is set, and never both.
   */
  lemma OneFate(actions: seq<Action>, c: Config)
    requires Over(Run(actions, c))
    ensures var s := Run(actions, c);
            && (s.handler.Delivered? <==> s.requester.Panicked? || s.requester.Replied?)
            && (s.handler.Left? <==> s.requester.TimedOut?)
            && (s.handler.panicked.Some? ==>
                  if s.handler.Delivered? then
                    s.requester == Panicked(s.handler.panicked.value) && s.reraised == 1 && s.reported == 0
                  else s.reraised == 0 && s.reported == if c.hasOnPanic then 1 else 0)
            && (s.handler.panicked.None? ==> s.reraised == 0 && s.reported == 0)
  {
    EveryRunOk(actions, c);
  }

  /**
   The buffer is read only after the handler's last call, so the reply is fixed by everything the
   handler did, in every continuation: an error if it was oversized, else what it wrote in time.
   */
  lemma {:induction false} ReplyIsFinal(actions: seq<Action>, more: seq<Action>, c: Config)
    requires Run(actions, c).requester.Received? || Run(actions, c).requester.Replied?
    ensures var s, t := Run(actions, c), Run(actions + more, c);
            && t.events == s.events && t.handler == s.handler && s.handler.Delivered?
            && (t.requester.Received? || t.requester.Replied? || t.requester.Panicked?)
            && (t.requester.Replied? ==> t.requester.reply == ReplyTo(s.events, c))
  {
    EveryRunOk(actions + more, c);
    EveryRunOk(actions, c);
    if more == [] {
      assert actions + more == actions;
    } else {
      var front := more[..|more| - 1];
      ReplyIsFinal(actions, front, c);
      assert (actions + more)[..|actions + more| - 1] == actions + front;
    }
  }

  /** An oversized response is an error; otherwise the reply has every byte unless one came after expiry. */
  lemma NeverTruncated(actions: seq<Action>, c: Config)
    requires Run(actions, c).requester.Replied?
    ensures var s := Run(actions, c);
            && (s.requester.reply.ServerError? <==> |InTime(s.events)| > c.maxBuffer || |InTime(s.events)| > c.maxReplay)
            && (s.requester.reply.Replay? ==>
                  (s.requester.reply.body == Written(s.events) <==> !LostWrite(s.events)))
  {
    EveryRunOk(actions, c);
    ReplayComplete(Run(actions, c).events);
  }

  /** The handler has returned or panicked. */
  predicate Ended(actions: seq<Action>) {
    exists i :: 0 <= i < |actions| && (actions[i].Return? || actions[i].Panic?)
  }

  /** The calls the handler makes before it returns or panics, a write marked expired just when the deadline has passed. */
  function Made(actions: seq<Action>): seq<Event> {
    if actions == [] then []
    else
      var front, last := actions[..|actions| - 1], actions[|actions| - 1];
      Made(front) +
      if last.Call? && !Ended(front) && (last.event.Write? ==> last.event.expired == (Expire in front)) then [last.event] else []
  }

  lemma EndedSnoc(front: seq<Action>, a: Action)
    ensures Ended(front + [a]) <==> Ended(front) || a.Return? || a.Panic?
    ensures Expire in front + [a] <==> Expire in front || a == Expire
  {
    if Ended(front) {
      var i :| 0 <= i < |front| && (front[i].Return? || front[i].Panic?);
      assert (front + [a])[i] == front[i];
    }
    assert (front + [a])[|front|] == a;
  }

  /** The handler works until it ends, and knows of the deadline. */
  ghost predicate Awake(s: State, actions: seq<Action>) {
    (s.handler.Working? <==> !Ended(actions)) && (s.handler.Working? ==> (s.expired <==> Expire in actions))
  }

  lemma AwakeStep(s: State, front: seq<Action>, a: Action, c: Config)
    requires Met(s) && Awake(s, front)
    ensures Awake(Step(s, c, a), front + [a])
  {
    EndedSnoc(front, a);
  }

  lemma {:induction false} EveryRunAwake(actions: seq<Action>, c: Config)
    ensures Awake(Run(actions, c), actions)
  {
    if actions != [] {
      var front, last := actions[..|actions| - 1], actions[|actions| - 1];
      EveryRunAwake(front, c);
      EveryRunOk(front, c);
      AwakeStep(Run(front, c), front, last, c);
      assert actions == front + [last];
    }
  }

  /** The recorded calls are those the handler makes while it works, in every interleaving. */
  lemma {:induction false} CallsAreMade(actions: seq<Action>, c: Config)
    ensures Listed(Run(actions, c).events) == Made(actions)
  {
    if actions != [] {
      var front := actions[..|actions| - 1];
      CallsAreMade(front, c);
      EveryRunAwake(front, c);
    }
  }

  /**
   The head of every replay, from the handler's calls alone: the status of the first call that
   chooses one, and the header as the last edit left it, with "nosniff" where that field is empty.
   */
  lemma ReplayHead(actions: seq<Action>, c: Config)
    requires Run(actions, c).requester.Replied? && Run(actions, c).requester.reply.Replay?
    ensures var head := Run(actions, c).requester.reply.head;
            StatusFits(head.status, Made(actions)) && HeaderFits(head.header, Made(actions))
  {
    EveryRunOk(actions, c);
    CallsAreMade(actions, c);
    StatusLaw(Run(actions, c).events);
    HeaderLaw(Run(actions, c).events);
  }

  /** A run that replays part of a response: the deadline passes between two writes, yet the sides meet. */
  lemma PartialReplay(c: Config)
    requires c.maxBuffer > 0 && c.maxReplay > 0
    ensures var s := Run([Call(Event.Write("a", false)), Expire, Call(Event.Write("b", true)), Return, Rendezvous, Finish], c);
            && s.requester.Replied? && s.requester.reply.Replay?
            && s.requester.reply.body == "a" && Written(s.events) == "ab"
  {
    var a0, a2 := Call(Event.Write("a", false)), Call(Event.Write("b", true));
    var r1, r2, r3 := [a0], [a0, Expire], [a0, Expire, a2];
    var r4, r5 := r3 + [Return], r3 + [Return] + [Rendezvous];
    assert [] + [a0] == r1 && r1 + [Expire] == r2 && r2 + [a2] == r3;
    var first := Next(Start, a0.event);
    var both := Next(first, a2.event);
    RunSnoc([], a0, c);
    assert Run(r1, c) == Initial.(events := first);
    RunSnoc(r1, Expire, c);
    RunSnoc(r2, a2, c);
    assert Run(r3, c) == Initial.(expired := true, events := both);
    RunSnoc(r3, Return, c);
    RunSnoc(r4, Rendezvous, c);
    assert Run(r5, c).events == both && Run(r5, c).requester == Received(None);
    RunSnoc(r5, Finish, c);
    assert r5 + [Finish] == [a0, Expire, a2, Return, Rendezvous, Finish];
    assert InTime(first) == "a" && Written(first) == "a";
    assert InTime(both) == "a" + "" && Written(both) == "a" + "b";
  }

  lemma RunSnoc(front: seq<Action>, a: Action, c: Config)
    ensures Run(front + [a], c) == Step(Run(front, c), c, a)
  {
    assert (front + [a])[..|front|] == front;
  }
}
