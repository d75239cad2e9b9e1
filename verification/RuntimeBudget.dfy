/** The restart budget over every interleaving of the runtime: how often the supervisors of `RuntimeProtocol`
    start their workers again. */
module RuntimeBudget {
  import Restarts
  import opened RuntimeProtocol
  import Workers

  /** Supervisor `i` asks its tracker for a restart. */
  predicate Asks(s: State, e: Event, i: nat) {
    && e.WorkerReturns? && e.i == i && Possible(s, e) && !s.requested
    && !s.supervisors[i].phase.worker.exit.value.Unwound?
  }

  /** Supervisor `i` starts its worker again. */
  predicate StartsAgain(s: State, e: Event, i: nat) {
    e.Registers? && e.i == i && e.ok && Possible(s, e)
  }

  function CallsOf(s: State, events: seq<Event>, i: nat): seq<Restarts.Call>
    decreases events
  {
    if events == [] then []
    else (if Asks(s, events[0], i) then [events[0].call] else []) + CallsOf(Next(s, events[0]), events[1..], i)
  }

  /** When supervisor `i` started its worker again. */
  function StartsOf(s: State, events: seq<Event>, i: nat): seq<nat>
    decreases events
  {
    if events == [] then []
    else (if StartsAgain(s, events[0], i) then [events[0].at] else []) + StartsOf(Next(s, events[0]), events[1..], i)
  }

  /** A restart has been granted and not yet carried out. */
  predicate Owed(sup: Supervisor) {
    sup.phase.Backoff? || sup.phase.Registering?
  }

  /** Grants and starts take turns, none earlier than `now`. */
  ghost predicate Woven(now: nat, owed: bool, grants: seq<Restarts.Grant>, starts: seq<nat>)
    decreases |grants| + |starts|
  {
    (grants == [] && starts == [])
    || (if owed then starts != [] && now <= starts[0] && Woven(starts[0], false, grants, starts[1..])
        else grants != [] && now <= grants[0].at && Woven(grants[0].at, true, grants[1..], starts))
  }

  lemma WovenEarlier(earlier: nat, now: nat, owed: bool, grants: seq<Restarts.Grant>, starts: seq<nat>)
    requires earlier <= now && Woven(now, owed, grants, starts)
    ensures Woven(earlier, owed, grants, starts)
  {}

  lemma {:induction false} WovenAt(now: nat, grants: seq<Restarts.Grant>, starts: seq<nat>, k: nat)
    requires Woven(now, false, grants, starts) && k < |starts|
    ensures k < |grants| && grants[k].at <= starts[k]
    ensures k + 1 < |grants| ==> starts[k] <= grants[k + 1].at
    decreases k
  {
    assert Woven(grants[0].at, true, grants[1..], starts);
    assert Woven(starts[0], false, grants[1..], starts[1..]);
    if k > 0 {
      WovenAt(starts[0], grants[1..], starts[1..], k - 1);
    }
  }

  /** An event by which supervisor `i` neither asks for a restart nor carries one out. */
  lemma QuietEvent(s: State, e: Event, i: nat)
    requires i < |s.supervisors| && !Asks(s, e, i) && !StartsAgain(s, e, i)
    ensures i < |Next(s, e).supervisors|
    ensures
      var sup, next := s.supervisors[i], Next(s, e).supervisors[i];
      && next.tracker == sup.tracker && sup.now <= next.now
      && (next.phase.Exited? || (!sup.phase.Exited? && Owed(next) == Owed(sup)))
  {
    hide Workers.Step, Workers.Start;
    if Mover(e).Some? && Possible(s, e) && Mover(e).value != i {
      hide Next;
      MovesOne(s, e);
    }
  }

  lemma AskedEvent(s: State, e: Event, i: nat)
    requires Asks(s, e, i)
    ensures e.WorkerReturns? && !StartsAgain(s, e, i) && i < |s.supervisors| && i < |Next(s, e).supervisors|
    ensures
      var sup, next := s.supervisors[i], Next(s, e).supervisors[i];
      var (tracker, delay) := Restarts.Advance(sup.tracker, e.call.readAt, e.call.resetAt);
      && !sup.phase.Exited? && !Owed(sup) && sup.now <= e.call.readAt <= e.call.resetAt
      && next.tracker == tracker && next.now == e.call.resetAt && next.phase == if delay.Some? then Backoff else Exited(false)
  {
    hide Workers.Step, Workers.Start, Restarts.Advance;
  }

  lemma StartedEvent(s: State, e: Event, i: nat)
    requires StartsAgain(s, e, i)
    ensures e.Registers? && !Asks(s, e, i) && i < |s.supervisors| && i < |Next(s, e).supervisors|
    ensures
      var sup, next := s.supervisors[i], Next(s, e).supervisors[i];
      && !sup.phase.Exited? && Owed(sup) && sup.now <= e.at
      && next.tracker == sup.tracker && next.now == e.at && next.phase.Running?
  {
    hide Workers.Step, Workers.Start;
  }

  /** Along every run a supervisor's calls are in order, and its grants and starts take turns. */
  ghost predicate InTurn(sup: Supervisor, epoch: nat, calls: seq<Restarts.Call>, starts: seq<nat>)
    requires sup.tracker.policy.Restart?
  {
    && Restarts.Ordered(sup.now, calls)
    && Woven(sup.now, Owed(sup), Restarts.Grants(sup.tracker, epoch, calls), starts)
    && (sup.phase.Exited? ==> calls == [] && starts == [])
  }

  lemma GrantInTurn(sup: Supervisor, next: Supervisor, epoch: nat, call: Restarts.Call, calls: seq<Restarts.Call>, starts: seq<nat>)
    requires sup.tracker.policy.Restart? && !sup.phase.Exited? && !Owed(sup) && sup.now <= call.readAt <= call.resetAt
    requires
      var (tracker, delay) := Restarts.Advance(sup.tracker, call.readAt, call.resetAt);
      next.tracker == tracker && next.now == call.resetAt && next.phase == if delay.Some? then Backoff else Exited(false)
    requires forall epoch1 :: InTurn(next, epoch1, calls, starts)
    ensures InTurn(sup, epoch, [call] + calls, starts)
  {
    hide Woven;
    var all := [call] + calls;
    assert all[0] == call && all[1..] == calls;
    var epoch1 := if Restarts.Elapsed(sup.tracker.windowStarted, call.readAt) > sup.tracker.policy.window then epoch + 1 else epoch;
    assert InTurn(next, epoch1, calls, starts);
    var rest := Restarts.Grants(next.tracker, epoch1, calls);
    var grants := Restarts.Grants(sup.tracker, epoch, all);
    if next.phase.Backoff? {
      WovenEarlier(call.readAt, next.now, true, rest, starts);
      assert grants[1..] == rest;
      WovenGrant(sup.now, grants, starts);
    } else {
      assert grants == rest == [];
      NothingIsWoven(sup.now, false);
    }
  }

  lemma WovenGrant(now: nat, grants: seq<Restarts.Grant>, starts: seq<nat>)
    requires grants != [] && now <= grants[0].at && Woven(grants[0].at, true, grants[1..], starts)
    ensures Woven(now, false, grants, starts)
  {}

  lemma NothingIsWoven(now: nat, owed: bool)
    ensures Woven(now, owed, [], [])
  {}

  lemma StartInTurn(sup: Supervisor, next: Supervisor, epoch: nat, at: nat, calls: seq<Restarts.Call>, starts: seq<nat>)
    requires sup.tracker.policy.Restart? && !sup.phase.Exited? && Owed(sup) && sup.now <= at
    requires next.tracker == sup.tracker && next.now == at && next.phase.Running?
    requires InTurn(next, epoch, calls, starts)
    ensures InTurn(sup, epoch, calls, [at] + starts)
  {
    OrderedEarlier(sup.now, at, calls);
    assert ([at] + starts)[1..] == starts;
  }

  lemma OrderedEarlier(earlier: nat, now: nat, calls: seq<Restarts.Call>)
    requires earlier <= now && Restarts.Ordered(now, calls)
    ensures Restarts.Ordered(earlier, calls)
  {}

  lemma QuietInTurn(sup: Supervisor, next: Supervisor, epoch: nat, calls: seq<Restarts.Call>, starts: seq<nat>)
    requires sup.tracker.policy.Restart? && next.tracker == sup.tracker && sup.now <= next.now
    requires next.phase.Exited? || (!sup.phase.Exited? && Owed(next) == Owed(sup))
    requires InTurn(next, epoch, calls, starts)
    ensures InTurn(sup, epoch, calls, starts)
  {
    hide Woven, Owed;
    OrderedEarlier(sup.now, next.now, calls);
    if next.phase.Exited? {
      NothingIsWoven(sup.now, Owed(sup));
    } else {
      WovenEarlier(sup.now, next.now, Owed(sup), Restarts.Grants(sup.tracker, epoch, calls), starts);
    }
  }

  lemma {:induction false} PolicyStays(s: State, events: seq<Event>, i: nat)
    requires i < |s.supervisors|
    ensures i < |Run(s, events).supervisors|
    ensures Run(s, events).supervisors[i].tracker.policy == s.supervisors[i].tracker.policy
    decreases events
  {
    hide Next, Asks, StartsAgain;
    if events != [] {
      var e := events[0];
      if Asks(s, e, i) {
        AskedEvent(s, e, i);
      } else if StartsAgain(s, e, i) {
        StartedEvent(s, e, i);
      } else {
        QuietEvent(s, e, i);
      }
      PolicyStays(Next(s, e), events[1..], i);
    }
  }

  lemma {:induction false} StartsFollowGrants(s: State, events: seq<Event>, i: nat)
    requires i < |s.supervisors| && s.supervisors[i].tracker.policy.Restart?
    ensures forall epoch :: InTurn(s.supervisors[i], epoch, CallsOf(s, events, i), StartsOf(s, events, i))
    decreases events
  {
    hide Next, Asks, StartsAgain, InTurn, Owed;
    var sup := s.supervisors[i];
    if events == [] {
      forall epoch
        ensures InTurn(sup, epoch, [], [])
      {
        NothingInTurn(sup, epoch);
      }
    } else {
      var e, t := events[0], Next(s, events[0]);
      var calls, starts := CallsOf(t, events[1..], i), StartsOf(t, events[1..], i);
      if Asks(s, e, i) {
        AskedEvent(s, e, i);
        StartsFollowGrants(t, events[1..], i);
        forall epoch
          ensures InTurn(sup, epoch, [e.call] + calls, starts)
        {
          GrantInTurn(sup, t.supervisors[i], epoch, e.call, calls, starts);
        }
        assert [] + starts == starts;
      } else if StartsAgain(s, e, i) {
        StartedEvent(s, e, i);
        StartsFollowGrants(t, events[1..], i);
        forall epoch
          ensures InTurn(sup, epoch, calls, [e.at] + starts)
        {
          assert InTurn(t.supervisors[i], epoch, calls, starts);
          StartInTurn(sup, t.supervisors[i], epoch, e.at, calls, starts);
        }
        assert [] + calls == calls;
      } else {
        QuietEvent(s, e, i);
        StartsFollowGrants(t, events[1..], i);
        forall epoch
          ensures InTurn(sup, epoch, calls, starts)
        {
          assert InTurn(t.supervisors[i], epoch, calls, starts);
          QuietInTurn(sup, t.supervisors[i], epoch, calls, starts);
        }
        assert [] + calls == calls && [] + starts == starts;
      }
    }
  }

  lemma NothingInTurn(sup: Supervisor, epoch: nat)
    requires sup.tracker.policy.Restart?
    ensures InTurn(sup, epoch, [], [])
  {}

  /** Starts `a` to `b` of a supervisor whose grants form a chain from its tracker's first one. */
  lemma {:induction false} StartsWithinBudget(
      policy: Restarts.FailurePolicy, at: nat, calls: seq<Restarts.Call>, starts: seq<nat>, a: nat, b: nat)
    requires Restarts.Validated(policy) && Restarts.Ordered(at, calls)
    requires Woven(at, false, Restarts.Grants(Restarts.Fresh(policy, at), 0, calls), starts)
    requires a <= b < |starts| && starts[b] <= starts[a] + policy.window
    ensures b - a + 1 <= 2 * policy.maxRestarts
  {
    hide Woven, Restarts.Grants, Restarts.Chain, Restarts.Ordered;
    var grants := Restarts.Grants(Restarts.Fresh(policy, at), 0, calls);
    Restarts.BackoffStep(policy, 0);
    Restarts.GrantsFormChain(Restarts.Fresh(policy, at), 0, at, calls);
    WovenAt(at, grants, starts, a);
    WovenAt(at, grants, starts, b);
    if a < b {
      Restarts.LaterGrantsAreFewer(policy, grants, a + 1, b);
    }
  }

  lemma NotYetSpawned(s: State, e: Event, i: nat)
    requires |s.supervisors| <= i
    ensures !StartsAgain(s, e, i)
    ensures |Next(s, e).supervisors| <= i + 1
    ensures i < |Next(s, e).supervisors| ==> e.Spawn? && Next(s, e).supervisors[i] == Spawned(e.config, e.policy, e.at)
  {
    if Mover(e).Some? && Possible(s, e) {
      hide Next;
      MovesOne(s, e);
    }
  }

  /** The restart budget over every interleaving: in any stretch of time as long as the window, a supervisor
      starts its worker again at most twice as often as its policy's budget, whatever the other supervisors,
      the channel and the registrations do in between. */
  lemma {:induction false} RestartBudgetOverRuns(s: State, events: seq<Event>, i: nat, a: nat, b: nat)
    requires |s.supervisors| <= i < |Run(s, events).supervisors|
    requires
      var policy, starts := Run(s, events).supervisors[i].tracker.policy, StartsOf(s, events, i);
      Restarts.Validated(policy) && a <= b < |starts| && starts[b] <= starts[a] + policy.window
    ensures b - a + 1 <= 2 * Run(s, events).supervisors[i].tracker.policy.maxRestarts
    decreases events
  {
    hide Workers.Start, Next, StartsAgain, Woven, Restarts.Grants;
    var e, rest := events[0], events[1..];
    var t := Next(s, e);
    NotYetSpawned(s, e, i);
    if i < |t.supervisors| {
      PolicyStays(t, rest, i);
      StartsFollowGrants(t, rest, i);
      var sup := t.supervisors[i];
      assert InTurn(sup, 0, CallsOf(t, rest, i), StartsOf(t, rest, i));
      StartsWithinBudget(sup.tracker.policy, sup.now, CallsOf(t, rest, i), StartsOf(t, rest, i), a, b);
    } else {
      RestartBudgetOverRuns(t, rest, i, a, b);
    }
  }
}
