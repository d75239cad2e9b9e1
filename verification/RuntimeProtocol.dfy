/** Shutdown over every interleaving of the runtime (nats-micro/src/app/typed_runtime.rs): a versioned watch
    channel, any number of supervisors, and the worker incarnations that each supervisor runs one after the
    other. One iteration of a loop, with its `select!`, is one atomic step. */
module RuntimeProtocol {
  import opened Text
  import Restarts
  import Workers

  /** Where a supervisor is. A running worker has its own receiver, which has seen version `seen`. */
  datatype Phase =
    | Running(worker: Workers.Worker, seen: nat)
    | Backoff
    | Registering
    | Exited(ok: bool)

  /** A supervisor with its restart tracker; it last read the clock at `now`. */
  datatype Supervisor = Supervisor(config: Workers.Config, tracker: Restarts.Tracker, now: nat, seen: nat, phase: Phase)

  /** The channel's version and value, the supervisors, how many messages all workers have accepted so far,
      and the version of the first request for shutdown. */
  datatype State = State(version: nat, requested: bool, supervisors: seq<Supervisor>, accepted: nat, since: Option<nat>)

  /** Readings of the clock come with the events that need them. */
  datatype Event =
    | Send(requested: bool)
    | Spawn(config: Workers.Config, policy: Restarts.FailurePolicy, at: nat)
    | Iterate(i: nat, poll: Workers.Poll)
    | WorkerReturns(i: nat, call: Restarts.Call)
    | BackoffElapses(i: nat)
    | BackoffChanges(i: nat)
    | Registers(i: nat, ok: bool, at: nat)
    | Abort(i: nat)

  /** The runtime starts in the running state; its own receiver never marks a version as seen. */
  const INITIAL := State(0, false, [], 0, None)

  predicate Live(s: Supervisor) {
    !s.phase.Exited?
  }

  function Fresh(config: Workers.Config, seen: nat): Phase {
    Running(Workers.Start(config), seen)
  }

  /** The supervisor of a worker that just started for the first time. */
  function Spawned(config: Workers.Config, policy: Restarts.FailurePolicy, at: nat): Supervisor {
    Supervisor(config, Restarts.Fresh(policy, at), at, 0, Fresh(config, 0))
  }

  /** The supervisor after its worker ended. A panic that is not caught unwinds the supervisor as well, so
      nobody is left to ask for a restart. */
  function Returned(requested: bool, sup: Supervisor, exit: Workers.Exit, call: Restarts.Call): Supervisor {
    if exit.Unwound? then sup.(phase := Exited(false))
    else if requested then sup.(phase := Exited(true))
    else
      var (tracker, delay) := Restarts.Advance(sup.tracker, call.readAt, call.resetAt);
      sup.(tracker := tracker, now := call.resetAt, phase := if delay.Some? then Backoff else Exited(false))
  }

  /** What a receiver that has seen this version is told. */
  function SignalFor(s: State, seen: nat): Option<Workers.Signal> {
    if seen == s.version then None else Some(Workers.Changed(s.requested))
  }

  predicate At(s: State, i: nat) {
    i < |s.supervisors| && Live(s.supervisors[i])
  }

  predicate Possible(s: State, e: Event) {
    match e
    case Send(_) => true
    case Spawn(_, _, _) => true
    case Iterate(i, poll) =>
      At(s, i) && var phase := s.supervisors[i].phase;
        phase.Running? && phase.worker.exit.None? && poll.changed == SignalFor(s, phase.seen)
    case WorkerReturns(i, call) =>
      && At(s, i) && s.supervisors[i].phase.Running? && s.supervisors[i].phase.worker.exit.Some?
      && s.supervisors[i].now <= call.readAt <= call.resetAt
    case BackoffElapses(i) => At(s, i) && s.supervisors[i].phase.Backoff?
    case BackoffChanges(i) => At(s, i) && s.supervisors[i].phase.Backoff? && s.supervisors[i].seen != s.version
    case Registers(i, _, at) => At(s, i) && s.supervisors[i].phase.Registering? && s.supervisors[i].now <= at
    case Abort(i) => At(s, i)
  }

  function Moves(s: State, i: nat, sup: Supervisor): State
    requires i < |s.supervisors|
  {
    s.(supervisors := s.supervisors[i := sup])
  }

  /** An iteration of a worker takes the signal, if it takes one, with its own receiver. */
  function Iterated(s: State, i: nat, poll: Workers.Poll): State
    requires Possible(s, Iterate(i, poll))
  {
    var sup := s.supervisors[i];
    var worker := Workers.Step(sup.config, sup.phase.worker, poll);
    var seen := if sup.phase.worker.accepting && poll.changed.Some? then s.version else sup.phase.seen;
    Moves(s, i, sup.(phase := Running(worker, seen))).(
      accepted := s.accepted + if worker.received > sup.phase.worker.received then worker.received - sup.phase.worker.received else 0)
  }

  /** The state after an event; one that cannot happen changes nothing. */
  function Next(s: State, e: Event): State {
    if !Possible(s, e) then s
    else
      match e
      case Send(requested) =>
        s.(version := s.version + 1, requested := requested,
           since := if requested && s.since.None? then Some(s.version + 1) else s.since)
      case Spawn(config, policy, at) => s.(supervisors := s.supervisors + [Spawned(config, policy, at)])
      case Iterate(i, poll) => Iterated(s, i, poll)
      case WorkerReturns(i, call) =>
        var sup := s.supervisors[i];
        Moves(s, i, Returned(s.requested, sup, sup.phase.worker.exit.value, call))
      case BackoffElapses(i) => Moves(s, i, s.supervisors[i].(phase := Registering))
      case BackoffChanges(i) =>
        Moves(s, i, s.supervisors[i].(seen := s.version, phase := if s.requested then Exited(true) else Registering))
      case Registers(i, ok, at) =>
        var sup := s.supervisors[i];
        Moves(s, i, sup.(now := at, phase := if ok then Fresh(sup.config, sup.seen) else Exited(false)))
      case Abort(i) => Moves(s, i, s.supervisors[i].(phase := Exited(false)))
  }

  function Run(s: State, events: seq<Event>): State
    decreases events
  {
    if events == [] then s else Run(Next(s, events[0]), events[1..])
  }

  /** Nobody takes a request for shutdown back. The framework itself never does: it sends nothing but
      requests. */
  ghost predicate NoRevocation(s: State, events: seq<Event>)
    decreases events
  {
    events == [] || ((events[0] == Send(false) ==> !s.requested) && NoRevocation(Next(s, events[0]), events[1..]))
  }

  // ----- the invariant

  /** A live supervisor has not seen the request, and a worker that has seen it no longer accepts. */
  ghost predicate Unaware(version: nat, since: Option<nat>, sup: Supervisor) {
    Live(sup) ==>
      && sup.seen <= version && (since.Some? ==> sup.seen < since.value)
      && (sup.phase.Running? ==>
            && Workers.Inv(sup.config, sup.phase.worker) && sup.phase.seen <= version
            && (since.Some? && sup.phase.seen >= since.value ==> !sup.phase.worker.accepting))
  }

  ghost predicate Inv(s: State) {
    && (s.since.Some? <==> s.requested)
    && (s.since.Some? ==> 0 < s.since.value <= s.version)
    && forall i | 0 <= i < |s.supervisors| :: Unaware(s.version, s.since, s.supervisors[i])
  }

  lemma IterateKeeps(s: State, i: nat, poll: Workers.Poll)
    requires Inv(s) && Possible(s, Iterate(i, poll))
    ensures Inv(Iterated(s, i, poll))
    ensures s.requested ==> Iterated(s, i, poll).accepted == s.accepted
  {
    hide Workers.Inv, Workers.Step;
    var sup := s.supervisors[i];
    var w := sup.phase.worker;
    assert Unaware(s.version, s.since, sup);
    Workers.StepKeeps(sup.config, w, poll);
    if !w.accepting {
      Workers.DrainingOnlyShrinks(sup.config, w, poll);
    } else if poll.changed.Some? {
      Workers.SignalWins(sup.config, w, poll);
    }
  }

  lemma OthersKeep(s: State, i: nat, sup: Supervisor)
    requires Inv(s) && i < |s.supervisors| && Unaware(s.version, s.since, sup)
    ensures Inv(Moves(s, i, sup))
  {
    hide Unaware;
  }

  lemma FreshIsUnaware(s: State, sup: Supervisor)
    requires Inv(s) && sup.seen <= s.version && (s.since.Some? ==> sup.seen < s.since.value)
    requires sup.phase == Fresh(sup.config, sup.seen)
    ensures Unaware(s.version, s.since, sup)
  {
    hide Workers.Inv;
    Workers.StartKeeps(sup.config);
  }

  lemma SendKeeps(s: State, requested: bool)
    requires Inv(s) && (!requested ==> !s.requested)
    ensures Inv(Next(s, Send(requested)))
  {
    var t := Next(s, Send(requested));
    forall i | 0 <= i < |t.supervisors|
      ensures Unaware(t.version, t.since, t.supervisors[i])
    {
      assert Unaware(s.version, s.since, s.supervisors[i]);
    }
  }

  lemma NextKeeps(s: State, e: Event)
    requires Inv(s) && (e == Send(false) ==> !s.requested)
    ensures Inv(Next(s, e))
    ensures s.requested ==> Next(s, e).requested && Next(s, e).since == s.since && Next(s, e).accepted == s.accepted
  {
    hide Workers.Inv, Iterated;
    if Possible(s, e) {
      match e {
        case Send(requested) => SendKeeps(s, requested);
        case Spawn(config, policy, at) => FreshIsUnaware(s, Spawned(config, policy, at));
        case Iterate(i, poll) =>
          IterateKeeps(s, i, poll);
          IteratedKeepsChannel(s, i, poll);
        case Registers(i, ok, at) =>
          var sup := s.supervisors[i];
          assert Unaware(s.version, s.since, sup);
          if ok {
            FreshIsUnaware(s, Next(s, e).supervisors[i]);
          }
          OthersKeep(s, i, Next(s, e).supervisors[i]);
        case WorkerReturns(i, _) => MoveKeeps(s, e, i);
        case BackoffElapses(i) => MoveKeeps(s, e, i);
        case BackoffChanges(i) => MoveKeeps(s, e, i);
        case Abort(i) => MoveKeeps(s, e, i);
      }
    }
  }

  lemma IteratedKeepsChannel(s: State, i: nat, poll: Workers.Poll)
    requires Possible(s, Iterate(i, poll))
    ensures Iterated(s, i, poll).requested == s.requested && Iterated(s, i, poll).since == s.since
  {}

  lemma MoveKeeps(s: State, e: Event, i: nat)
    requires Inv(s) && Possible(s, e)
    requires e == BackoffElapses(i) || e == BackoffChanges(i) || e == Abort(i) || (e.WorkerReturns? && e.i == i)
    ensures Inv(Next(s, e))
    ensures Next(s, e).requested == s.requested && Next(s, e).since == s.since && Next(s, e).accepted == s.accepted
  {
    hide Workers.Inv;
    assert Unaware(s.version, s.since, s.supervisors[i]);
    OthersKeep(s, i, Next(s, e).supervisors[i]);
  }

  lemma {:induction false} RunKeeps(s: State, events: seq<Event>)
    requires Inv(s) && NoRevocation(s, events)
    ensures Inv(Run(s, events))
    ensures s.requested ==>
              Run(s, events).requested && Run(s, events).since == s.since && Run(s, events).accepted == s.accepted
    decreases events
  {
    hide Inv, Next;
    if events != [] {
      NextKeeps(s, events[0]);
      RunKeeps(Next(s, events[0]), events[1..]);
    }
  }

  lemma {:induction false} RunSplits(s: State, before: seq<Event>, after: seq<Event>)
    ensures Run(s, before + after) == Run(Run(s, before), after)
    ensures NoRevocation(s, before + after) ==> NoRevocation(s, before) && NoRevocation(Run(s, before), after)
    decreases before
  {
    hide Next;
    if before == [] {
      assert before + after == after;
    } else {
      assert (before + after)[0] == before[0] && (before + after)[1..] == before[1..] + after;
      RunSplits(Next(s, before[0]), before[1..], after);
    }
  }

  /** Over every interleaving in which no request is taken back: once shutdown is requested it stays
      requested, no live supervisor's receiver has seen the request, and no worker accepts another message,
      not even one that a supervisor started after the request. */
  lemma {:induction false} NothingIsAcceptedAfterARequest(before: seq<Event>, after: seq<Event>)
    requires NoRevocation(INITIAL, before + after) && Run(INITIAL, before).requested
    ensures
      var s, t := Run(INITIAL, before), Run(INITIAL, before + after);
      && t.requested && t.accepted == s.accepted
      && t.since.Some? && t.since == s.since
      && (forall i | 0 <= i < |t.supervisors| && Live(t.supervisors[i]) :: t.supervisors[i].seen < t.since.value)
      && (forall i | 0 <= i < |t.supervisors| && t.supervisors[i].phase.Running? && t.supervisors[i].phase.worker.accepting ::
            t.supervisors[i].phase.seen < t.since.value)
  {
    RunSplits(INITIAL, before, after);
    RunKeeps(INITIAL, before);
    RunKeeps(Run(INITIAL, before), after);
    var t := Run(INITIAL, before + after);
    forall i | 0 <= i < |t.supervisors| && Live(t.supervisors[i])
      ensures Unaware(t.version, t.since, t.supervisors[i])
    {}
  }

  /** When the number of accepted messages grows: exactly when a worker with room that still accepts, and
      whose receiver has seen the latest version of the channel, finds a message and no completion. */
  lemma AcceptsExactlyWhenUpToDate(s: State, e: Event)
    ensures Next(s, e).accepted == s.accepted || Next(s, e).accepted == s.accepted + 1
    ensures Next(s, e).accepted > s.accepted <==>
            && e.Iterate? && Possible(s, e)
            && var sup := s.supervisors[e.i];
               && sup.phase.seen == s.version && sup.phase.worker.accepting
               && |sup.phase.worker.inFlight| < sup.config.concurrency
               && !Workers.Completes(sup.phase.worker, e.poll) && e.poll.incoming == Some(Workers.Message)
  {
    if Possible(s, e) && e.Iterate? {
      var sup := s.supervisors[e.i];
      Workers.ReceivesExactlyWhenFree(sup.config, sup.phase.worker, e.poll);
    }
  }

  /** How waiting for a restart ends, apart from being aborted: the supervisor exits well exactly when its
      receiver reports a request for shutdown, and registers again exactly when the time is up or the receiver
      reports anything else. */
  lemma BackoffEnds(s: State, e: Event, i: nat)
    requires At(s, i) && s.supervisors[i].phase.Backoff? && e != Abort(i)
    ensures i < |Next(s, e).supervisors|
    ensures
      var sup, next := s.supervisors[i], Next(s, e).supervisors[i];
      var changed := e == BackoffChanges(i) && sup.seen != s.version;
      && (next.phase == Exited(true) <==> changed && s.requested)
      && (next.phase == Registering <==> e == BackoffElapses(i) || (changed && !s.requested))
      && (next.phase == Backoff || next.phase == Registering || next.phase == Exited(true))
      && next == sup.(seen := if changed then s.version else sup.seen, phase := next.phase)
  {
    hide Workers.Step, Workers.Start;
    if Mover(e).Some? && Possible(s, e) && Mover(e).value != i {
      hide Next;
      MovesOne(s, e);
    }
  }

  // ----- shutdown comes to an end

  /** How many more steps a supervisor can take once shutdown is requested. */
  function Rank(sup: Supervisor): nat {
    match sup.phase
    case Exited(_) => 0
    case Running(worker, _) =>
      if worker.exit.Some? then 1 else |worker.inFlight| + if worker.accepting then 2 else 1
    case Registering => 3
    case Backoff => 4
  }

  /** The supervisor an event moves, if it moves one. */
  function Mover(e: Event): Option<nat> {
    match e
    case Send(_) => None
    case Spawn(_, _, _) => None
    case Iterate(i, _) => Some(i)
    case WorkerReturns(i, _) => Some(i)
    case BackoffElapses(i) => Some(i)
    case BackoffChanges(i) => Some(i)
    case Registers(i, _, _) => Some(i)
    case Abort(i) => Some(i)
  }

  lemma IterateProgresses(s: State, i: nat, poll: Workers.Poll)
    requires Inv(s) && s.requested && Possible(s, Iterate(i, poll))
    ensures
      var t := Iterated(s, i, poll);
      t == s || Rank(t.supervisors[i]) < Rank(s.supervisors[i])
  {
    hide Workers.Inv, Workers.Step;
    var sup := s.supervisors[i];
    var w := sup.phase.worker;
    assert Unaware(s.version, s.since, sup);
    if w.accepting {
      Workers.SignalWins(sup.config, w, poll);
    } else {
      Workers.DrainingOnlyShrinks(sup.config, w, poll);
      if Workers.Step(sup.config, w, poll) == w {
        assert s.supervisors[i := sup] == s.supervisors;
      }
    }
  }

  /** Once shutdown is requested, every event that moves a supervisor brings it closer to its exit, whichever
      of its branches wins: a supervisor in backoff may still register and start one more worker, but that
      worker only stops again. */
  lemma ShutdownProgresses(s: State, e: Event)
    requires Inv(s) && s.requested && Mover(e).Some?
    ensures
      var t, i := Next(s, e), Mover(e).value;
      t == s || (i < |s.supervisors| && i < |t.supervisors| && Rank(t.supervisors[i]) < Rank(s.supervisors[i])
                 && t.supervisors == s.supervisors[i := t.supervisors[i]])
  {
    hide Inv, Iterated, Workers.Step;
    if Possible(s, e) {
      match e
      case Iterate(i, poll) =>
        IterateProgresses(s, i, poll);
        IteratedMovesOne(s, i, poll);
      case _ =>
    }
  }

  lemma IteratedMovesOne(s: State, i: nat, poll: Workers.Poll)
    requires Possible(s, Iterate(i, poll))
    ensures i < |s.supervisors| && |Iterated(s, i, poll).supervisors| == |s.supervisors|
    ensures Iterated(s, i, poll).supervisors == s.supervisors[i := Iterated(s, i, poll).supervisors[i]]
  {}

  // ----- whole runs after a request

  ghost predicate NoSpawn(events: seq<Event>) {
    forall k | 0 <= k < |events| :: !events[k].Spawn?
  }

  function TotalRank(supervisors: seq<Supervisor>): nat {
    if supervisors == [] then 0 else Rank(supervisors[0]) + TotalRank(supervisors[1..])
  }

  /** How many of the events move a supervisor. */
  function Moved(s: State, events: seq<Event>): nat
    decreases events
  {
    if events == [] then 0
    else (if Mover(events[0]).Some? && Next(s, events[0]) != s then 1 else 0) + Moved(Next(s, events[0]), events[1..])
  }

  lemma {:induction false} TotalRankUpdate(supervisors: seq<Supervisor>, i: nat, sup: Supervisor)
    requires i < |supervisors|
    ensures TotalRank(supervisors[i := sup]) + Rank(supervisors[i]) == TotalRank(supervisors) + Rank(sup)
  {
    if i == 0 {
      assert supervisors[0 := sup][1..] == supervisors[1..];
    } else {
      TotalRankUpdate(supervisors[1..], i - 1, sup);
      assert supervisors[i := sup][1..] == supervisors[1..][i - 1 := sup];
    }
  }

  lemma EventLowersTotal(s: State, e: Event)
    requires Inv(s) && s.requested && !e.Spawn?
    ensures TotalRank(Next(s, e).supervisors) + Moved(s, [e]) <= TotalRank(s.supervisors)
  {
    assert Moved(Next(s, e), [e][1..]) == 0;
    if Mover(e).Some? {
      ShutdownProgresses(s, e);
      var t := Next(s, e);
      if t != s {
        TotalRankUpdate(s.supervisors, Mover(e).value, t.supervisors[Mover(e).value]);
      }
    }
  }

  /** Shutdown comes to an end: after a request, in every interleaving that starts no new supervisor and does
      not take the request back, at most as many events move a supervisor as the ranks add up to. */
  lemma {:induction false} ShutdownIsBounded(s: State, events: seq<Event>)
    requires Inv(s) && s.requested && NoRevocation(s, events) && NoSpawn(events)
    ensures Moved(s, events) + TotalRank(Run(s, events).supervisors) <= TotalRank(s.supervisors)
    decreases events
  {
    hide Inv, Next, TotalRank;
    if events != [] {
      var e := events[0];
      NextKeeps(s, e);
      EventLowersTotal(s, e);
      assert [e][1..] == [] && Moved(Next(s, e), []) == 0;
      assert NoSpawn(events[1..]);
      ShutdownIsBounded(Next(s, e), events[1..]);
    }
  }

  // ----- exactly which histories of sends are safe

  function SendsOf(events: seq<Event>): seq<bool> {
    if events == [] then []
    else (if events[0].Send? then [events[0].requested] else []) + SendsOf(events[1..])
  }

  /** After a request nothing but requests is sent. */
  predicate NeverRevokes(requested: bool, sends: seq<bool>)
    decreases sends
  {
    sends == [] || ((requested ==> sends[0]) && NeverRevokes(sends[0], sends[1..]))
  }

  /** Nothing is accepted from the first moment at which shutdown is requested. */
  ghost predicate Safe(s: State, events: seq<Event>) {
    forall k | 0 <= k <= |events| && Run(s, events[..k]).requested :: Run(s, events).accepted == Run(s, events[..k]).accepted
  }

  lemma {:induction false} SendsDecide(s: State, events: seq<Event>)
    ensures NoRevocation(s, events) <==> NeverRevokes(s.requested, SendsOf(events))
    decreases events
  {
    if events != [] {
      SendsDecide(Next(s, events[0]), events[1..]);
      OnlySendsRequest(s, events[0]);
      if events[0].Send? {
        assert SendsOf(events)[0] == events[0].requested && SendsOf(events)[1..] == SendsOf(events[1..]);
      } else {
        assert SendsOf(events) == SendsOf(events[1..]);
      }
    }
  }

  lemma OnlySendsRequest(s: State, e: Event)
    ensures Next(s, e).requested == if e.Send? then e.requested else s.requested
  {}

  lemma {:induction false} UnrevokedIsSafe(events: seq<Event>)
    requires NeverRevokes(false, SendsOf(events))
    ensures Safe(INITIAL, events)
  {
    SendsDecide(INITIAL, events);
    forall k | 0 <= k <= |events| && Run(INITIAL, events[..k]).requested
      ensures Run(INITIAL, events).accepted == Run(INITIAL, events[..k]).accepted
    {
      assert events == events[..k] + events[k..];
      NothingIsAcceptedAfterARequest(events[..k], events[k..]);
    }
  }

  function AsEvents(sends: seq<bool>): (events: seq<Event>)
    ensures |events| == |sends| && forall k | 0 <= k < |sends| :: events[k] == Send(sends[k])
  {
    seq(|sends|, k requires 0 <= k < |sends| => Send(sends[k]))
  }

  lemma {:induction false} SendsOfConcat(a: seq<Event>, b: seq<Event>)
    ensures SendsOf(a + b) == SendsOf(a) + SendsOf(b)
  {
    if a == [] {
      assert a + b == b;
    } else {
      var first, rest := if a[0].Send? then [a[0].requested] else [], a[1..];
      SendsOfConcat(rest, b);
      assert (a + b)[0] == a[0] && (a + b)[1..] == rest + b;
      Regroup(first, SendsOf(rest), SendsOf(b));
    }
  }

  lemma {:induction false} SendsOfSends(sends: seq<bool>)
    ensures SendsOf(AsEvents(sends)) == sends
  {
    if sends != [] {
      assert AsEvents(sends)[1..] == AsEvents(sends[1..]);
      SendsOfSends(sends[1..]);
    }
  }

  /** Sends leave everything but the channel alone. */
  lemma {:induction false} RunOfSends(s: State, sends: seq<bool>)
    ensures
      var t := Run(s, AsEvents(sends));
      && t.supervisors == s.supervisors && t.accepted == s.accepted && t.version == s.version + |sends|
      && t.requested == if sends == [] then s.requested else sends[|sends| - 1]
    decreases sends
  {
    if sends != [] {
      assert AsEvents(sends)[1..] == AsEvents(sends[1..]);
      RunOfSends(Next(s, Send(sends[0])), sends[1..]);
    }
  }

  lemma {:induction false} AcceptedOnlyGrows(s: State, events: seq<Event>)
    ensures Run(s, events).accepted >= s.accepted
    decreases events
  {
    hide Workers.Step;
    if events != [] {
      AcceptedOnlyGrows(Next(s, events[0]), events[1..]);
    }
  }

  /** Where a history of sends takes a request back. */
  lemma {:induction false} RevokesSomewhere(requested: bool, sends: seq<bool>) returns (j: nat)
    requires !NeverRevokes(requested, sends)
    ensures j < |sends| && !sends[j] && if j == 0 then requested else sends[j - 1]
    decreases sends
  {
    j := 0;
    if !(requested && !sends[0]) {
      var k := RevokesSomewhere(sends[0], sends[1..]);
      j := k + 1;
    }
  }

  const ONE := Workers.Config(Workers.Consumer, 1, Workers.FailWorker)
  const STARTS := Spawn(ONE, Restarts.ShutdownApp, 0)
  const NOTICES := Iterate(0, Workers.Poll(Some(Workers.Changed(false)), true, None, None))
  const ACCEPTS := Iterate(0, Workers.Poll(None, true, None, Some(Workers.Message)))

  /** The only supervisor's worker has just started and has seen nothing. */
  predicate FreshAlone(s: State) {
    |s.supervisors| == 1 && s.supervisors[0].config == ONE && s.supervisors[0].phase == Fresh(ONE, 0)
  }

  lemma FreshWorkerAccepts(s: State)
    requires FreshAlone(s) && s.version > 0 && !s.requested
    ensures Run(s, [NOTICES, ACCEPTS]).accepted == s.accepted + 1
  {
    var t := Next(s, NOTICES);
    assert t.supervisors[0].phase == Running(Workers.Start(ONE), s.version);
    assert [NOTICES, ACCEPTS][1..] == [ACCEPTS] && [ACCEPTS][1..] == [];
    assert Run(t, [ACCEPTS]) == Next(t, ACCEPTS);
  }

  /** An interleaving with a worker that starts first and does nothing until the request is taken back ... */
  function Beginning(sends: seq<bool>): seq<Event> {
    [STARTS] + AsEvents(sends)
  }

  /** ... and then accepts a message. */
  function Ending(send: bool, sends: seq<bool>): seq<Event> {
    [Send(send)] + ([NOTICES, ACCEPTS] + AsEvents(sends))
  }

  lemma BeginningRuns(sends: seq<bool>)
    ensures SendsOf(Beginning(sends)) == sends
    ensures
      var s := Run(INITIAL, Beginning(sends));
      && FreshAlone(s) && s.accepted == 0
      && s.requested == (sends != [] && sends[|sends| - 1])
  {
    hide Workers.Start, NOTICES, ACCEPTS;
    var spawn := [STARTS];
    assert spawn[1..] == [];
    assert Run(INITIAL, spawn) == Next(INITIAL, STARTS);
    RunSplits(INITIAL, spawn, AsEvents(sends));
    RunOfSends(Run(INITIAL, spawn), sends);
    SendsOfConcat(spawn, AsEvents(sends));
    SendsOfSends(sends);
    SpawnSendsNothing(false);
  }

  lemma EndingRuns(s: State, sends: seq<bool>)
    requires FreshAlone(s)
    ensures SendsOf(Ending(false, sends)) == [false] + sends
    ensures Run(s, Ending(false, sends)).accepted > s.accepted
  {
    hide Workers.Start, NOTICES, ACCEPTS;
    var rest := [NOTICES, ACCEPTS] + AsEvents(sends);
    var t := Next(s, Send(false));
    assert Ending(false, sends)[0] == Send(false) && Ending(false, sends)[1..] == rest;
    FreshWorkerAccepts(t);
    RunSplits(t, [NOTICES, ACCEPTS], AsEvents(sends));
    AcceptedOnlyGrows(Run(t, [NOTICES, ACCEPTS]), AsEvents(sends));
    SendsOfConcat([NOTICES, ACCEPTS], AsEvents(sends));
    SendsOfSends(sends);
    SpawnSendsNothing(false);
    assert [] + sends == sends;
  }

  lemma {:induction false} RevokedIsUnsafe(sends: seq<bool>)
    requires !NeverRevokes(false, sends)
    ensures exists events :: SendsOf(events) == sends && !Safe(INITIAL, events)
  {
    hide Run, SendsOf, Beginning, Ending, NeverRevokes;
    var j := RevokesSomewhere(false, sends);
    var before, after := Beginning(sends[..j]), Ending(false, sends[j + 1..]);
    BeginningRuns(sends[..j]);
    EndingRuns(Run(INITIAL, before), sends[j + 1..]);
    SendsOfConcat(before, after);
    assert sends == sends[..j] + ([false] + sends[j + 1..]);
    RunSplits(INITIAL, before, after);
    assert (before + after)[..|before|] == before;
    assert !Safe(INITIAL, before + after);
  }

  lemma SpawnSendsNothing(requested: bool)
    ensures SendsOf([STARTS]) == [] && SendsOf([NOTICES, ACCEPTS]) == [] && SendsOf([Send(requested)]) == [requested]
  {
    assert [STARTS][1..] == [] && [Send(requested)][1..] == [];
    assert [NOTICES, ACCEPTS][1..] == [ACCEPTS] && [ACCEPTS][1..] == [];
    assert SendsOf([ACCEPTS]) == [];
  }

  /** Exactly when the property holds: for a history of sends, every interleaving of it with everything else
      accepts nothing after a request if and only if the history never takes a request back. */
  lemma {:induction false} SafeExactlyWhenNeverRevoked(sends: seq<bool>)
    ensures (forall events | SendsOf(events) == sends :: Safe(INITIAL, events)) <==> NeverRevokes(false, sends)
  {
    if NeverRevokes(false, sends) {
      forall events | SendsOf(events) == sends
        ensures Safe(INITIAL, events)
      {
        UnrevokedIsSafe(events);
      }
    } else {
      RevokedIsUnsafe(sends);
    }
  }

  // ----- exactly which supervisors a revocation can revive

  /** What holds of every supervisor in every run, whatever is sent. */
  ghost predicate SaneSupervisor(version: nat, sup: Supervisor) {
    Live(sup) ==>
      && sup.seen <= version
      && (sup.phase.Running? ==> Workers.Inv(sup.config, sup.phase.worker) && sup.phase.seen <= version)
  }

  ghost predicate Sane(s: State) {
    forall i | 0 <= i < |s.supervisors| :: SaneSupervisor(s.version, s.supervisors[i])
  }

  lemma SupervisorStaysSane(s: State, e: Event)
    requires Sane(s) && Mover(e).Some? && Possible(s, e)
    ensures Mover(e).value < |s.supervisors| && |Next(s, e).supervisors| == |s.supervisors|
    ensures SaneSupervisor(s.version, Next(s, e).supervisors[Mover(e).value])
  {
    hide Workers.Inv, Workers.Step, Workers.Start;
    var sup := s.supervisors[Mover(e).value];
    assert SaneSupervisor(s.version, sup);
    Workers.StartKeeps(sup.config);
    if e.Iterate? {
      Workers.StepKeeps(sup.config, sup.phase.worker, e.poll);
    }
  }

  /** An event that moves a supervisor leaves the channel and the others alone. */
  lemma MovesOne(s: State, e: Event)
    requires Mover(e).Some? && Possible(s, e)
    ensures
      var t, i := Next(s, e), Mover(e).value;
      && i < |s.supervisors| && |t.supervisors| == |s.supervisors| && t.version == s.version && t.requested == s.requested
      && t.supervisors == s.supervisors[i := t.supervisors[i]]
  {
    hide Workers.Step;
  }

  lemma NextStaysSane(s: State, e: Event)
    requires Sane(s)
    ensures Sane(Next(s, e))
  {
    hide Workers.Inv, Workers.Start;
    if Possible(s, e) {
      if Mover(e).Some? {
        hide Next, Possible, SaneSupervisor;
        MovesOne(s, e);
        SupervisorStaysSane(s, e);
      } else if e.Spawn? {
        Workers.StartKeeps(e.config);
      } else {
        forall i | 0 <= i < |s.supervisors|
          ensures SaneSupervisor(s.version + 1, s.supervisors[i])
        {
          assert SaneSupervisor(s.version, s.supervisors[i]);
        }
      }
    }
  }

  lemma {:induction false} RunStaysSane(s: State, events: seq<Event>)
    requires Sane(s)
    ensures Sane(Run(s, events))
    decreases events
  {
    hide Sane, Next;
    if events != [] {
      NextStaysSane(s, events[0]);
      RunStaysSane(Next(s, events[0]), events[1..]);
    }
  }

  /** The restart policy grants restarts, though perhaps not at the moment. */
  predicate Restarting(policy: Restarts.FailurePolicy) {
    policy.Restart? && policy.maxRestarts > 0
  }

  /** The supervisor has room for messages, and either its worker still accepts, or another worker is on its
      way, or the restart policy may start one once this worker is done. A worker that unwound takes its
      supervisor with it. */
  predicate Revivable(sup: Supervisor) {
    && sup.config.concurrency > 0
    && match sup.phase
       case Exited(_) => false
       case Backoff => true
       case Registering => true
       case Running(worker, _) =>
         if worker.exit.Some? then Restarting(sup.tracker.policy) && !worker.exit.value.Unwound?
         else worker.accepting || Restarting(sup.tracker.policy)
  }

  /** Some continuation, without new supervisors, accepts a message. */
  ghost predicate CanAccept(s: State) {
    exists events :: NoSpawn(events) && Run(s, events).accepted > s.accepted
  }

  lemma CanAcceptEarlier(s: State, e: Event)
    requires !e.Spawn? && CanAccept(Next(s, e))
    ensures CanAccept(s)
  {
    hide Next;
    var events :| NoSpawn(events) && Run(Next(s, e), events).accepted > Next(s, e).accepted;
    assert ([e] + events)[0] == e && ([e] + events)[1..] == events;
    AcceptedGrowsOnce(s, e);
    assert NoSpawn([e] + events);
  }

  lemma AcceptedGrowsOnce(s: State, e: Event)
    ensures Next(s, e).accepted >= s.accepted
  {
    hide Workers.Step;
  }

  lemma AcceptingNow(s: State, e: Event)
    requires !e.Spawn? && Next(s, e).accepted > s.accepted
    ensures CanAccept(s)
  {
    hide Next;
    assert [e][1..] == [];
    assert Run(s, [e]) == Next(s, e);
    assert NoSpawn([e]);
  }

  /** The supervisor's worker accepts, nobody asks for shutdown, and there is nothing new on the channel. */
  predicate Listening(s: State, i: nat) {
    && At(s, i) && s.supervisors[i].phase.Running? && s.supervisors[i].phase.seen == s.version
    && s.supervisors[i].phase.worker.exit.None? && s.supervisors[i].phase.worker.accepting
    && s.supervisors[i].config.concurrency > 0
  }

  lemma ListeningAccepts(s: State, i: nat)
    requires Sane(s) && Listening(s, i)
    ensures CanAccept(s)
  {
    var sup := s.supervisors[i];
    var w := sup.phase.worker;
    assert SaneSupervisor(s.version, sup);
    var accepts := Iterate(i, Workers.Poll(None, true, None, Some(Workers.Message)));
    if |w.inFlight| < sup.config.concurrency {
      AcceptingNow(s, accepts);
    } else {
      var id :| id in w.inFlight;
      var completes := Iterate(i, Workers.Poll(None, true, Some((id, Workers.Succeeded)), None));
      var t := Next(s, completes);
      assert t.supervisors[i].phase.worker.inFlight == w.inFlight - {id};
      AcceptingNow(t, accepts);
      CanAcceptEarlier(s, completes);
    }
  }

  lemma AcceptingWorkerAccepts(s: State, i: nat)
    requires Sane(s) && At(s, i) && !s.requested && s.supervisors[i].phase.Running?
    requires s.supervisors[i].phase.worker.exit.None? && s.supervisors[i].phase.worker.accepting
    requires s.supervisors[i].config.concurrency > 0
    ensures CanAccept(s)
  {
    if s.supervisors[i].phase.seen == s.version {
      ListeningAccepts(s, i);
    } else {
      var notices := Iterate(i, Workers.Poll(Some(Workers.Changed(false)), true, None, None));
      NextStaysSane(s, notices);
      ListeningAccepts(Next(s, notices), i);
      CanAcceptEarlier(s, notices);
    }
  }

  lemma RegisteringAccepts(s: State, i: nat)
    requires Sane(s) && At(s, i) && !s.requested && s.supervisors[i].phase.Registering?
    requires s.supervisors[i].config.concurrency > 0
    ensures CanAccept(s)
  {
    hide Sane;
    var registers := Registers(i, true, s.supervisors[i].now);
    NextStaysSane(s, registers);
    AcceptingWorkerAccepts(Next(s, registers), i);
    CanAcceptEarlier(s, registers);
  }

  lemma BackoffAccepts(s: State, i: nat)
    requires Sane(s) && At(s, i) && !s.requested && s.supervisors[i].phase.Backoff?
    requires s.supervisors[i].config.concurrency > 0
    ensures CanAccept(s)
  {
    hide Sane;
    NextStaysSane(s, BackoffElapses(i));
    RegisteringAccepts(Next(s, BackoffElapses(i)), i);
    CanAcceptEarlier(s, BackoffElapses(i));
  }

  lemma ReturnedAccepts(s: State, i: nat)
    requires Sane(s) && At(s, i) && !s.requested && s.supervisors[i].phase.Running?
    requires s.supervisors[i].phase.worker.exit.Some? && !s.supervisors[i].phase.worker.exit.value.Unwound?
    requires Restarting(s.supervisors[i].tracker.policy) && s.supervisors[i].config.concurrency > 0
    ensures CanAccept(s)
  {
    hide Sane;
    var call := LateCall(s.supervisors[i].tracker, s.supervisors[i].now);
    NextStaysSane(s, WorkerReturns(i, call));
    BackoffAccepts(Next(s, WorkerReturns(i, call)), i);
    CanAcceptEarlier(s, WorkerReturns(i, call));
  }

  /** Late enough, every such tracker grants a restart, whatever it granted before. */
  lemma LateCall(t: Restarts.Tracker, now: nat) returns (call: Restarts.Call)
    requires Restarting(t.policy)
    ensures now <= call.readAt <= call.resetAt && Restarts.Advance(t, call.readAt, call.resetAt).1.Some?
  {
    var late := now + t.windowStarted + t.policy.window + 1;
    call := Restarts.Call(late, late);
  }

  lemma DrainingAccepts(s: State, i: nat)
    requires Sane(s) && At(s, i) && !s.requested && s.supervisors[i].phase.Running?
    requires s.supervisors[i].phase.worker.exit.None? && !s.supervisors[i].phase.worker.accepting
    requires Restarting(s.supervisors[i].tracker.policy) && s.supervisors[i].config.concurrency > 0
    ensures CanAccept(s)
  {
    var sup := s.supervisors[i];
    var w := sup.phase.worker;
    assert SaneSupervisor(s.version, sup);
    var id :| id in w.inFlight;
    var fails := Iterate(i, Workers.Poll(SignalFor(s, sup.phase.seen), true, Some((id, Workers.Failed)), None));
    assert Next(s, fails).supervisors[i].phase.worker.exit == Some(Workers.CompletionError(id));
    NextStaysSane(s, fails);
    ReturnedAccepts(Next(s, fails), i);
    CanAcceptEarlier(s, fails);
  }

  lemma RevivableAccepts(s: State, i: nat)
    requires Sane(s) && !s.requested && i < |s.supervisors| && Revivable(s.supervisors[i])
    ensures CanAccept(s)
  {
    hide Sane, CanAccept;
    match s.supervisors[i].phase
    case Exited(_) =>
    case Backoff => BackoffAccepts(s, i);
    case Registering => RegisteringAccepts(s, i);
    case Running(worker, _) =>
      if worker.exit.Some? {
        ReturnedAccepts(s, i);
      } else if worker.accepting {
        AcceptingWorkerAccepts(s, i);
      } else {
        DrainingAccepts(s, i);
      }
  }

  ghost predicate NoneRevivable(s: State) {
    forall i | 0 <= i < |s.supervisors| :: !Revivable(s.supervisors[i])
  }

  lemma IteratedStaysLost(s: State, i: nat, poll: Workers.Poll)
    requires Possible(s, Iterate(i, poll)) && SaneSupervisor(s.version, s.supervisors[i]) && !Revivable(s.supervisors[i])
    ensures !Revivable(Iterated(s, i, poll).supervisors[i]) && Iterated(s, i, poll).accepted == s.accepted
  {
    hide Workers.Step, Workers.Inv;
    var sup := s.supervisors[i];
    if sup.config.concurrency == 0 {
      WithoutRoomIsOver(sup.config, sup.phase.worker);
    }
    Workers.DrainingOnlyShrinks(sup.config, sup.phase.worker, poll);
  }

  lemma WithoutRoomIsOver(config: Workers.Config, w: Workers.Worker)
    requires Workers.Inv(config, w) && config.concurrency == 0
    ensures w.exit.Some?
  {}

  lemma MovedStaysLost(s: State, e: Event)
    requires Possible(s, e) && Mover(e).Some?
    requires
      var i := Mover(e).value;
      i < |s.supervisors| && SaneSupervisor(s.version, s.supervisors[i]) && !Revivable(s.supervisors[i])
    ensures
      var i := Mover(e).value;
      && i < |Next(s, e).supervisors| && !Revivable(Next(s, e).supervisors[i]) && Next(s, e).accepted == s.accepted
  {
    hide Workers.Step, Workers.Start, Iterated, SaneSupervisor;
    if e.Iterate? {
      IteratedMovesOne(s, e.i, e.poll);
      IteratedStaysLost(s, e.i, e.poll);
    }
  }

  /** A supervisor that cannot be revived stays that way and accepts nothing. */
  lemma LostStaysLost(s: State, e: Event)
    requires Sane(s) && NoneRevivable(s) && !e.Spawn?
    ensures NoneRevivable(Next(s, e)) && Next(s, e).accepted == s.accepted
  {
    hide Revivable, SaneSupervisor;
    if Possible(s, e) && Mover(e).Some? {
      hide Next, Possible;
      MovesOne(s, e);
      MovedStaysLost(s, e);
    }
  }

  lemma {:induction false} LostRunAcceptsNothing(s: State, events: seq<Event>)
    requires Sane(s) && NoneRevivable(s) && NoSpawn(events)
    ensures Run(s, events).accepted == s.accepted
    decreases events
  {
    hide Sane, NoneRevivable, Next;
    if events != [] {
      NextStaysSane(s, events[0]);
      LostStaysLost(s, events[0]);
      assert NoSpawn(events[1..]);
      LostRunAcceptsNothing(Next(s, events[0]), events[1..]);
    }
  }

  /** What taking a request back can do, in every state that any run reaches: some continuation without new
      supervisors accepts a message if and only if some supervisor can be revived. That is the case of a
      worker that has not noticed the request, of a supervisor waiting to start its next worker, and of one
      whose worker is draining or has ended in any way but an uncaught panic, and whose restart policy may
      start another. */
  lemma {:induction false} RevocationReopens(before: seq<Event>)
    ensures
      var s := Run(INITIAL, before);
      CanAccept(Next(s, Send(false))) <==> exists i | 0 <= i < |s.supervisors| :: Revivable(s.supervisors[i])
  {
    hide Revivable, CanAccept;
    RunStaysSane(INITIAL, before);
    var s := Run(INITIAL, before);
    var t := Next(s, Send(false));
    NextStaysSane(s, Send(false));
    assert t.supervisors == s.supervisors && !t.requested;
    if exists i | 0 <= i < |s.supervisors| :: Revivable(s.supervisors[i]) {
      var i :| 0 <= i < |s.supervisors| && Revivable(s.supervisors[i]);
      RevivableAccepts(t, i);
    } else {
      LostAcceptsNever(t);
    }
  }

  lemma LostAcceptsNever(s: State)
    requires Sane(s) && NoneRevivable(s)
    ensures !CanAccept(s)
  {
    forall events | NoSpawn(events)
      ensures Run(s, events).accepted == s.accepted
    {
      LostRunAcceptsNothing(s, events);
    }
  }

  /** How a supervisor goes on when it registers again: with a fresh worker, whose receiver has seen what the
      supervisor's has, exactly if that succeeds, and otherwise it ends badly; as it does when it is aborted. */
  lemma RegistrationDecides(s: State, i: nat, ok: bool, at: nat)
    requires i < |s.supervisors|
    ensures |Next(s, Registers(i, ok, at)).supervisors| == |Next(s, Abort(i)).supervisors| == |s.supervisors|
    ensures Possible(s, Registers(i, ok, at)) ==>
              var sup, next := s.supervisors[i], Next(s, Registers(i, ok, at)).supervisors[i];
              && next == sup.(now := at, phase := next.phase)
              && next.phase == if ok then Running(Workers.Start(sup.config), sup.seen) else Exited(false)
    ensures Live(s.supervisors[i]) ==> Next(s, Abort(i)).supervisors[i].phase == Exited(false)
  {
    hide Workers.Start;
  }

  /** How a supervisor ends when its worker returns: badly if the worker unwound, well if shutdown is requested by
      then, badly if a restart is refused, and otherwise not at all. It is only in the last two cases that the
      tracker is asked. */
  lemma ReturnDecides(s: State, i: nat, call: Restarts.Call)
    requires Possible(s, WorkerReturns(i, call))
    ensures i < |Next(s, WorkerReturns(i, call)).supervisors|
    ensures
      var sup, next := s.supervisors[i], Next(s, WorkerReturns(i, call)).supervisors[i];
      var unwound := exists id :: sup.phase.worker.exit == Some(Workers.Unwound(id));
      var asked := !unwound && !s.requested;
      var granted := Restarts.Advance(sup.tracker, call.readAt, call.resetAt).1 != None;
      && (next.phase == Exited(true) <==> !unwound && s.requested)
      && (next.phase == Exited(false) <==> unwound || (asked && !granted))
      && (next.phase == Backoff <==> asked && granted)
      && next.tracker == if asked then Restarts.Advance(sup.tracker, call.readAt, call.resetAt).0 else sup.tracker
  {
    hide Restarts.Advance;
    match s.supervisors[i].phase.worker.exit.value
    case Unwound(id) =>
      assert s.supervisors[i].phase.worker.exit == Some(Workers.Unwound(id));
    case _ =>
  }

  /** A supervisor whose worker unwound never runs another one, whatever happens. */
  ghost predicate Down(s: State, i: nat) {
    && i < |s.supervisors|
    && (s.supervisors[i].phase.Exited?
        || (s.supervisors[i].phase.Running? && s.supervisors[i].phase.worker.exit.Some?
            && s.supervisors[i].phase.worker.exit.value.Unwound?))
  }

  lemma {:induction false} UnwoundStaysDown(s: State, events: seq<Event>, i: nat)
    requires Down(s, i)
    ensures Down(Run(s, events), i)
    decreases events
  {
    if events != [] {
      var e := events[0];
      if Mover(e).Some? && Possible(s, e) && Mover(e).value != i {
        hide Next;
        MovesOne(s, e);
      }
      UnwoundStaysDown(Next(s, e), events[1..], i);
    }
  }

  const STOPS := Iterate(0, Workers.Poll(Some(Workers.Changed(true)), true, None, None))

  const ONCE := Restarts.Restart(1, 1, 1, 1)
  const SUPERVISED := Spawn(ONE, ONCE, 0)
  const RETURNS := WorkerReturns(0, Restarts.Call(0, 0))

  /** The only supervisor's worker has drained, and its restart policy may start another. */
  predicate DrainedAlone(s: State) {
    && |s.supervisors| == 1 && s.supervisors[0].config == ONE && s.supervisors[0].seen == 0
    && s.supervisors[0].tracker == Restarts.Fresh(ONCE, 0) && s.supervisors[0].now == 0
    && s.supervisors[0].phase.Running? && s.supervisors[0].phase.worker.exit == Some(Workers.Drained)
  }

  lemma FreshWorkerDrains()
    ensures
      var s := Next(Next(Next(INITIAL, SUPERVISED), Send(true)), STOPS);
      s.requested && s.accepted == 0 && DrainedAlone(s)
  {
    var s1 := Next(INITIAL, SUPERVISED);
    assert s1.supervisors == [Spawned(ONE, ONCE, 0)];
    var s2 := Next(s1, Send(true));
    assert Possible(s2, STOPS);
  }

  lemma DrainedIsReplaced(s: State)
    requires DrainedAlone(s)
    ensures
      var t := Next(Next(Next(Next(s, Send(false)), RETURNS), BackoffElapses(0)), Registers(0, true, 0));
      && FreshAlone(t) && t.version > 0 && !t.requested
      && t.accepted == s.accepted
  {
    hide Workers.Start, Workers.Step;
    var s1 := Next(s, Send(false));
    var s2 := Next(s1, RETURNS);
    assert s2.supervisors[0].phase == Backoff;
    var s3 := Next(s2, BackoffElapses(0));
    assert s3.supervisors[0].phase == Registering;
  }

  /** One such run from the start, in which the worker has noticed the request and drained before the request
      is taken back: its supervisor starts another one, which accepts a message. */
  lemma DrainedWorkerIsReplaced()
    ensures
      var before, after := [SUPERVISED, Send(true), STOPS], [Send(false), RETURNS, BackoffElapses(0)];
      && Run(INITIAL, before).requested && Run(INITIAL, before).accepted == 0
      && Run(INITIAL, before + after + [Registers(0, true, 0), NOTICES, ACCEPTS]).accepted == 1
  {
    hide Next, NOTICES, ACCEPTS, STOPS, INITIAL, DrainedAlone;
    var before, after := [SUPERVISED, Send(true), STOPS], [Send(false), RETURNS, BackoffElapses(0)];
    var last := [Registers(0, true, 0), NOTICES, ACCEPTS];
    FreshWorkerDrains();
    RunOfThree(INITIAL, SUPERVISED, Send(true), STOPS);
    var s := Run(INITIAL, before);
    DrainedIsReplaced(s);
    RunOfThree(s, Send(false), RETURNS, BackoffElapses(0));
    var t := Run(s, after);
    RunOfThree(t, Registers(0, true, 0), NOTICES, ACCEPTS);
    FreshWorkerAccepts(Next(t, Registers(0, true, 0)));
    RunOfTwo(Next(t, Registers(0, true, 0)), NOTICES, ACCEPTS);
    RunSplits(INITIAL, before, after);
    RunSplits(INITIAL, before + after, last);
  }

  lemma RunOfTwo(s: State, a: Event, b: Event)
    ensures Run(s, [a, b]) == Next(Next(s, a), b)
  {
    hide Next;
    assert [a, b][1..] == [b] && [b][1..] == [];
    assert Run(Next(s, a), [b]) == Next(Next(s, a), b);
  }

  lemma RunOfThree(s: State, a: Event, b: Event, c: Event)
    ensures Run(s, [a, b, c]) == Next(Next(Next(s, a), b), c)
  {
    hide Next;
    assert [a, b, c][1..] == [b, c] && [b, c][1..] == [c] && [c][1..] == [];
    assert Run(s, [a, b, c]) == Run(Next(s, a), [b, c]);
    assert Run(Next(s, a), [b, c]) == Run(Next(Next(s, a), b), [c]);
  }
}
