/** `Runtime::run` (nats-micro/src/app/typed_runtime.rs): waiting for a reason to stop, then the hook, the
    draining broadcast, the workers, the services and the client, in this order. What happens outside, and
    when, comes in as a script. */
module RuntimeRun {
  import opened Text
  import Restarts

  /** How a worker task ends: its own result, or a task that panicked or was aborted. */
  datatype Ending = Returned(result: Result<(), Str>) | JoinError(error: Str)

  datatype Failure =
    | ExitedUnexpectedly
    | WorkerError(error: Str)
    | TaskFailed(error: Str)
    | HookError(error: Str)
    | DrainTimeout
    | StillReferenced(service: nat)
    | ClientError(error: Str)

  function FailureOf(ending: Ending): Failure {
    match ending
    case Returned(Ok(_)) => ExitedUnexpectedly
    case Returned(Err(error)) => WorkerError(error)
    case JoinError(error) => TaskFailed(error)
  }

  /** What wakes the main loop: the shutdown receiver, or a worker that ended. */
  datatype Wake = Changed(closed: bool) | Completed(worker: nat, ending: Ending)

  /** One turn of the main loop. `before` and `after` are what the shutdown state says at the head of the
      turn and after waking up. */
  datatype Turn = Turn(before: bool, wake: Wake, after: bool)

  /** While draining, a worker ends or the deadline passes. */
  datatype DrainTurn = Ends(worker: nat, ending: Ending) | Deadline

  datatype Action =
    | RequestSent
    | HookRan
    | DrainingSent
    | Joined(worker: nat)
    | Aborted(worker: nat)
    | ServiceStopped(service: nat)
    | ServiceKept(service: nat)
    | ClientDrained

  /** The part of a run before the shutdown: whether it ended, the workers left over, and the failure that
      ended it, if it was one. */
  datatype Awaited = Awaited(ended: bool, workers: map<nat, Option<nat>>, failure: Option<Failure>)

  function Without(workers: map<nat, Option<nat>>, worker: nat): map<nat, Option<nat>> {
    map w | w in workers && w != worker :: workers[w]
  }

  /** The main loop over its turns. A wake-up that cannot happen is no wake-up. */
  function Await(policy: Restarts.FailurePolicy, workers: map<nat, Option<nat>>, turns: seq<Turn>): Awaited
    decreases turns
  {
    if turns == [] then Awaited(false, workers, None)
    else
      var turn := turns[0];
      if turn.before then Awaited(true, workers, None)
      else
        match turn.wake
        case Changed(closed) =>
          if closed || turn.after then Awaited(true, workers, None) else Await(policy, workers, turns[1..])
        case Completed(worker, ending) =>
          if worker !in workers then Await(policy, workers, turns[1..])
          else if turn.after then Awaited(true, Without(workers, worker), None)
          else if policy.Ignore? then Await(policy, Without(workers, worker), turns[1..])
          else Awaited(true, Without(workers, worker), Some(FailureOf(ending)))
  }

  function Record(first: Option<Failure>, failure: Failure): Option<Failure> {
    if first.Some? then first else Some(failure)
  }

  /** The first of the failures, in the order in which they came up. */
  function First(failures: seq<Failure>): Option<Failure> {
    if failures == [] then None else Some(failures[0])
  }

  /** Some live worker holds a reference to the service. */
  predicate Held(workers: map<nat, Option<nat>>, service: nat) {
    exists w | w in workers :: workers[w] == Some(service)
  }

  predicate NoneHeld(workers: map<nat, Option<nat>>, services: nat) {
    forall i | 0 <= i < services :: !Held(workers, i)
  }

  /** The failure is about the first service that is still held. */
  predicate FirstHeld(failure: Option<Failure>, workers: map<nat, Option<nat>>, services: nat) {
    && failure.Some? && failure.value.StillReferenced? && failure.value.service < services
    && Held(workers, failure.value.service) && NoneHeld(workers, failure.value.service)
  }

  function Holders(workers: map<nat, Option<nat>>, service: nat): set<nat> {
    set w | w in workers && workers[w] == Some(service)
  }

  /** What becomes of each service: it is stopped unless a worker still refers to it. */
  function Stops(workers: map<nat, Option<nat>>, services: nat): (actions: seq<Action>)
    ensures |actions| == services
    ensures forall i | 0 <= i < services :: actions[i] == if Held(workers, i) then ServiceKept(i) else ServiceStopped(i)
  {
    seq(services, i requires i >= 0 => if Held(workers, i) then ServiceKept(i) else ServiceStopped(i))
  }

  /** The workers joined since the log had this length, with how often. */
  ghost function JoinsSince(log: seq<Action>, start: nat): multiset<nat> {
    if |log| <= start then multiset{}
    else
      JoinsSince(log[..|log| - 1], start) +
      match log[|log| - 1] { case Joined(worker) => multiset{worker} case _ => multiset{} }
  }

  lemma JoinsMore(log: seq<Action>, start: nat, action: Action)
    requires start <= |log|
    ensures JoinsSince(log + [action], start) ==
            JoinsSince(log, start) + if action.Joined? then multiset{action.worker} else multiset{}
  {
    assert (log + [action])[..|log|] == log;
  }

  /** Since the log had this length, workers were joined and aborted, and nothing else was done. */
  ghost predicate OnlyDrains(log: seq<Action>, start: nat) {
    forall i | start <= i < |log| :: log[i].Joined? || log[i].Aborted?
  }

  /** Since the log had this length, the worker was aborted. */
  ghost predicate HasAborted(log: seq<Action>, start: nat, worker: nat) {
    exists i | start <= i < |log| :: log[i] == Aborted(worker)
  }

  lemma AbortsMore(log: seq<Action>, start: nat, worker: nat)
    requires start <= |log|
    ensures HasAborted(log + [Aborted(worker)], start, worker)
    ensures forall w | HasAborted(log, start, w) :: HasAborted(log + [Aborted(worker)], start, w)
  {
    var more := log + [Aborted(worker)];
    assert more[|log|] == Aborted(worker);
    forall w | HasAborted(log, start, w)
      ensures HasAborted(more, start, w)
    {
      var i :| start <= i < |log| && log[i] == Aborted(w);
      assert more[i] == Aborted(w);
    }
  }

  /** Every worker ends before the deadline. */
  predicate DrainsInTime(workers: set<nat>, script: seq<DrainTurn>)
    decreases script
  {
    workers == {}
    || (script != [] && script[0].Ends? && DrainsInTime(workers - {script[0].worker}, script[1..]))
  }

  /** In time means: no deadline comes before each of the workers has been reported as ended. */
  lemma {:induction false} InTimeExactly(workers: set<nat>, script: seq<DrainTurn>)
    ensures DrainsInTime(workers, script) <==>
            forall w | w in workers :: exists k | 0 <= k < |script| :: EndsBeforeDeadline(script, k, w)
    decreases script
  {
    if workers != {} && script != [] && script[0].Ends? {
      var left := workers - {script[0].worker};
      InTimeExactly(left, script[1..]);
      forall w, k | 0 < k < |script|
        ensures EndsBeforeDeadline(script, k, w) <==> EndsBeforeDeadline(script[1..], k - 1, w)
      {
        EndsLater(script, k, w);
      }
      if DrainsInTime(left, script[1..]) {
        forall w | w in workers
          ensures exists k | 0 <= k < |script| :: EndsBeforeDeadline(script, k, w)
        {
          if w in left {
            var k :| 0 <= k < |script[1..]| && EndsBeforeDeadline(script[1..], k, w);
            assert EndsBeforeDeadline(script, k + 1, w);
          } else {
            assert EndsBeforeDeadline(script, 0, w);
          }
        }
      }
      if forall w | w in workers :: exists k | 0 <= k < |script| :: EndsBeforeDeadline(script, k, w) {
        forall w | w in left
          ensures exists k | 0 <= k < |script[1..]| :: EndsBeforeDeadline(script[1..], k, w)
        {
          var k :| 0 <= k < |script| && EndsBeforeDeadline(script, k, w);
          assert EndsBeforeDeadline(script[1..], k - 1, w);
        }
      }
    }
  }

  ghost predicate EndsBeforeDeadline(script: seq<DrainTurn>, k: nat, worker: nat)
    requires k < |script|
  {
    script[k].Ends? && script[k].worker == worker && forall j | 0 <= j < k :: script[j] != Deadline
  }

  lemma EndsLater(script: seq<DrainTurn>, k: nat, worker: nat)
    requires 0 < k < |script| && script[0] != Deadline
    ensures EndsBeforeDeadline(script, k, worker) <==> EndsBeforeDeadline(script[1..], k - 1, worker)
  {
    assert forall j | 0 < j <= k :: script[1..][j - 1] == script[j];
  }

  /** The failure that a run returns: the one that ended the main loop, or else the hook's, or else that workers
      did not end before the deadline, or else the client's. */
  lemma ReturnedFailure(awaited: Awaited, hook: Option<Result<(), Str>>, drains: seq<DrainTurn>, client: Result<(), Str>, error: Str)
    ensures
      var first := First(Failures(awaited, hook, drains, client));
      var quiet := awaited.failure == None && (hook == None || hook.value.Ok?);
      && (awaited.failure != None ==> first == awaited.failure)
      && (awaited.failure == None && hook == Some(Err(error)) ==> first == Some(HookError(error)))
      && (quiet && !DrainsInTime(awaited.workers.Keys, drains) ==> first == Some(DrainTimeout))
      && (quiet && DrainsInTime(awaited.workers.Keys, drains) && client == Err(error) ==> first == Some(ClientError(error)))
      && (first == None <==> quiet && DrainsInTime(awaited.workers.Keys, drains) && client.Ok?)
  {
    hide DrainsInTime;
  }

  /** The failures that come up in a run, in order. */
  function Failures(awaited: Awaited, hook: Option<Result<(), Str>>, drains: seq<DrainTurn>, client: Result<(), Str>): seq<Failure> {
    Maybe(awaited.failure)
    + (if hook.Some? && hook.value.Err? then [HookError(hook.value.error)] else [])
    + (if DrainsInTime(awaited.workers.Keys, drains) then [] else [DrainTimeout])
    + (if client.Err? then [ClientError(client.error)] else [])
  }

  /** A failure that may have come up. */
  function Maybe(failure: Option<Failure>): seq<Failure> {
    if failure.Some? then [failure.value] else []
  }

  class Runtime {
    const policy: Restarts.FailurePolicy
    /** The live workers, each with the service it holds a reference to, if it holds one. */
    var workers: map<nat, Option<nat>>
    var services: nat
    var nextWorker: nat
    var log: seq<Action>

    ghost predicate Valid()
      reads this
    {
      && (forall w | w in workers :: w < nextWorker)
      && (forall w | w in workers && workers[w].Some? :: workers[w].value < services)
    }

    constructor (policy: Restarts.FailurePolicy)
      ensures Valid() && this.policy == policy && workers == map[] && services == 0 && log == []
    {
      this.policy := policy;
      workers, services, nextWorker, log := map[], 0, 0, [];
    }

    /** `start_service`, once the registration succeeded. */
    method StartService()
      requires Valid()
      modifies this`services
      ensures Valid() && services == old(services) + 1
    {
      services := services + 1;
    }

    /** `spawn_request`: the supervisor holds a reference to the latest service. */
    method SpawnRequest() returns (r: Result<nat, Str>)
      requires Valid()
      modifies this`workers, this`nextWorker
      ensures Valid()
      ensures r.Ok? <==> services > 0
      ensures r.Ok? ==> r.value !in old(workers) && workers == old(workers)[r.value := Some(services - 1)]
      ensures r.Err? ==> workers == old(workers)
    {
      if services == 0 {
        return Err(Ascii("request endpoint started before its service"));
      }
      var id := nextWorker;
      workers := workers[id := Some(services - 1)];
      nextWorker := nextWorker + 1;
      return Ok(id);
    }

    /** `spawn_subscription` and `spawn_consumer`, whose supervisors hold no service. */
    method SpawnOther() returns (id: nat)
      requires Valid()
      modifies this`workers, this`nextWorker
      ensures Valid()
      ensures id !in old(workers) && workers == old(workers)[id := None]
    {
      id := nextWorker;
      workers := workers[id := None];
      nextWorker := nextWorker + 1;
    }

    /** The references to a service: the runtime's own and one for each live worker that holds it. */
    function References(service: nat): (n: nat)
      reads this
      ensures n >= 1
    {
      1 + |Holders(workers, service)|
    }

    /** The main loop of `run`. */
    method AwaitShutdown(turns: seq<Turn>) returns (ended: bool, firstFailure: Option<Failure>)
      requires Valid()
      modifies this`workers, this`log
      ensures Valid()
      ensures Awaited(ended, workers, firstFailure) == Await(policy, old(workers), turns)
      ensures log == old(log) + if firstFailure.Some? then [RequestSent] else []
    {
      for i := 0 to |turns|
        invariant Valid() && log == old(log)
        invariant Await(policy, workers, turns[i..]) == Await(policy, old(workers), turns)
      {
        var turn := turns[i];
        DropOne(turns, i);
        if turn.before {
          return true, None;
        }
        match turn.wake {
          case Changed(closed) =>
            if closed || turn.after {
              return true, None;
            }
          case Completed(worker, ending) =>
            if worker in workers {
              workers := Without(workers, worker);
              if turn.after {
                return true, None;
              }
              if !policy.Ignore? {
                log := log + [RequestSent];
                return true, Some(FailureOf(ending));
              }
            }
        }
      }
      return false, None;
    }

    /** Awaiting a worker's handle: its future is gone, and so is the reference it held. */
    method JoinOne(worker: nat)
      requires Valid() && worker in workers
      modifies this`workers, this`log
      ensures Valid() && workers == Without(old(workers), worker) && log == old(log) + [Joined(worker)]
    {
      workers := Without(workers, worker);
      log := log + [Joined(worker)];
    }

    method AbortAll()
      modifies this`log
      ensures old(log) <= log && forall i | |old(log)| <= i < |log| :: log[i].Aborted?
      ensures forall w | w in workers :: HasAborted(log, |old(log)|, w)
    {
      var left := workers.Keys;
      while left != {}
        invariant left <= workers.Keys
        invariant old(log) <= log && forall i | |old(log)| <= i < |log| :: log[i].Aborted?
        invariant forall w | w in workers && w !in left :: HasAborted(log, |old(log)|, w)
        decreases |left|
      {
        var w :| w in left;
        AbortsMore(log, |old(log)|, w);
        log := log + [Aborted(w)];
        left := left - {w};
      }
    }

    /** Awaiting every handle that is left. */
    method JoinRest()
      requires Valid()
      modifies this`workers, this`log
      ensures Valid() && workers == map[] && old(log) <= log && OnlyDrains(log, |old(log)|)
      ensures JoinsSince(log, |old(log)|) == multiset(old(workers.Keys))
    {
      while workers != map[]
        invariant Valid() && workers.Keys <= old(workers.Keys) && old(log) <= log && OnlyDrains(log, |old(log)|)
        invariant JoinsSince(log, |old(log)|) == multiset(old(workers.Keys) - workers.Keys)
        decreases |workers.Keys|
      {
        assert workers.Keys != {};
        var w :| w in workers.Keys;
        JoinsMore(log, |old(log)|, Joined(w));
        ghost var before := workers.Keys;
        JoinOne(w);
        assert workers.Keys == before - {w};
      }
    }

    /** The loop of `drain_workers` until every worker has ended or the deadline passes; when the script ends
        early it is the deadline that comes next. */
    method JoinUntilDeadline(script: seq<DrainTurn>) returns (timedOut: bool)
      requires Valid()
      modifies this`workers, this`log
      ensures Valid() && (timedOut <==> workers != map[]) && (timedOut <==> !DrainsInTime(old(workers.Keys), script))
      ensures workers.Keys <= old(workers.Keys) && old(log) <= log && OnlyDrains(log, |old(log)|)
      ensures JoinsSince(log, |old(log)|) == multiset(old(workers.Keys) - workers.Keys)
    {
      var i := 0;
      while workers != map[]
        invariant Valid() && i <= |script|
        invariant workers.Keys <= old(workers.Keys) && old(log) <= log && OnlyDrains(log, |old(log)|)
        invariant JoinsSince(log, |old(log)|) == multiset(old(workers.Keys) - workers.Keys)
        invariant DrainsInTime(workers.Keys, script[i..]) == DrainsInTime(old(workers.Keys), script)
        decreases |script| - i
      {
        assert workers.Keys != {};
        if i == |script| || script[i].Deadline? {
          return true;
        }
        DropOne(script, i);
        var worker := script[i].worker;
        i := i + 1;
        ghost var before := workers.Keys;
        if worker in workers {
          JoinsMore(log, |old(log)|, Joined(worker));
          JoinOne(worker);
        }
        assert workers.Keys == before - {worker};
      }
      return false;
    }

    /** `drain_workers`: however it goes, every worker is awaited exactly once and none is left. */
    method DrainWorkers(script: seq<DrainTurn>, firstFailure: Option<Failure>)
      returns (first: Option<Failure>)
      requires Valid()
      modifies this`workers, this`log
      ensures Valid() && workers == map[]
      ensures first == if DrainsInTime(old(workers.Keys), script) then firstFailure else Record(firstFailure, DrainTimeout)
      ensures old(log) <= log && OnlyDrains(log, |old(log)|)
      ensures JoinsSince(log, |old(log)|) == multiset(old(workers.Keys))
    {
      hide DrainsInTime, JoinsSince;
      ghost var start := |log|;
      var late := JoinUntilDeadline(script);
      first := firstFailure;
      if late {
        ghost var joined := log;
        AbortAll();
        AbortsJoinNothing(joined, log, start);
        ghost var aborted := log;
        JoinRest();
        JoinsAddUp(aborted, log, start);
        first := Record(firstFailure, DrainTimeout);
      }
    }

    /** Stopping the services: each is stopped if the runtime holds the only reference to it. */
    method StopServices(firstFailure: Option<Failure>) returns (first: Option<Failure>)
      modifies this`log
      ensures log == old(log) + Stops(workers, services)
      ensures firstFailure.Some? || NoneHeld(workers, services) ==> first == firstFailure
      ensures firstFailure.None? && !NoneHeld(workers, services) ==> FirstHeld(first, workers, services)
    {
      first := firstFailure;
      ghost var stops := Stops(workers, services);
      for i := 0 to services
        invariant log == old(log) + stops[..i]
        invariant firstFailure.Some? || NoneHeld(workers, i) ==> first == firstFailure
        invariant firstFailure.None? && !NoneHeld(workers, i) ==> FirstHeld(first, workers, i)
      {
        assert stops[..i + 1] == stops[..i] + [stops[i]];
        HeldIsReferenced(workers, i);
        assert NoneHeld(workers, i + 1) ==> NoneHeld(workers, i) && !Held(workers, i);
        if References(i) == 1 {
          log := log + [ServiceStopped(i)];
        } else {
          first := Record(first, StillReferenced(i));
          log := log + [ServiceKept(i)];
        }
      }
      assert stops[..services] == stops;
    }

    /** `Runtime::run`. Without a reason to stop it goes on for ever, and there is no result. What a worker
        returns after the request is not among the failures that come up. `drained` is what draining logs. Each
        worker is either reported in the main loop or joined once while draining, and never both. */
    method Run(turns: seq<Turn>, hook: Option<Result<(), Str>>, drains: seq<DrainTurn>, client: Result<(), Str>)
      returns (r: Option<Result<(), Failure>>, ghost drained: seq<Action>)
      requires Valid()
      modifies this`workers, this`log
      ensures Valid()
      ensures r.Some? <==> Await(policy, old(workers), turns).ended
      ensures r.Some? ==>
        var awaited := Await(policy, old(workers), turns);
        && workers == map[]
        && r.value == (match First(Failures(awaited, hook, drains, client)) case None => Ok(()) case Some(failure) => Err(failure))
        && log == old(log) + (if awaited.failure.Some? then [RequestSent] else []) + (if hook.Some? then [HookRan] else [])
                  + [DrainingSent] + drained + Stops(map[], services) + [ClientDrained]
        && OnlyDrains(drained, 0) && JoinsSince(drained, 0) == multiset(awaited.workers.Keys)
      ensures r.Some? ==> forall k | 0 <= k < |turns| && StopsFirst(policy, old(workers), turns, k) ::
                multiset(Reported(old(workers), turns, k + 1)) + JoinsSince(drained, 0) == multiset(old(workers.Keys))
    {
      hide Await, JoinsSince, OnlyDrains, Stops, First, Maybe, DrainsInTime, StopsFirst, Reported;
      drained := [];
      EachIsAwaitedOnce(policy, workers, turns);
      var ended, firstFailure := AwaitShutdown(turns);
      if !ended {
        return None, drained;
      }
      ghost var failures := Maybe(firstFailure);
      FirstOfMaybe(firstFailure);
      firstFailure, failures := RunHook(hook, firstFailure, failures);
      log := log + [DrainingSent];
      ghost var before := log;
      ghost var inTime := DrainsInTime(workers.Keys, drains);
      firstFailure := DrainWorkers(drains, firstFailure);
      drained := log[|before|..];
      OnlyDrainsAlone(before, log);
      JoinsAlone(before, drained);
      FirstWith(failures, DrainTimeout);
      failures := failures + if inTime then [] else [DrainTimeout];
      firstFailure, failures := Finish(client, firstFailure, failures);
      r := Some(if firstFailure.Some? then Err(firstFailure.value) else Ok(()));
    }

    /** The shutdown hook; its failure counts only if there was none before. */
    method RunHook(hook: Option<Result<(), Str>>, firstFailure: Option<Failure>, ghost before: seq<Failure>)
      returns (first: Option<Failure>, ghost failures: seq<Failure>)
      requires firstFailure == First(before)
      modifies this`log
      ensures log == old(log) + if hook.Some? then [HookRan] else []
      ensures failures == before + if hook.Some? && hook.value.Err? then [HookError(hook.value.error)] else []
      ensures first == First(failures)
    {
      first, failures := firstFailure, before;
      if hook.Some? {
        log := log + [HookRan];
        if hook.value.Err? {
          failures := failures + [HookError(hook.value.error)];
          if first.None? {
            first := Some(HookError(hook.value.error));
          }
        }
      }
    }

    /** Stopping the services and draining the client. */
    method Finish(client: Result<(), Str>, firstFailure: Option<Failure>, ghost before: seq<Failure>)
      returns (first: Option<Failure>, ghost failures: seq<Failure>)
      requires workers == map[] && firstFailure == First(before)
      modifies this`log
      ensures log == old(log) + Stops(map[], services) + [ClientDrained]
      ensures failures == before + if client.Err? then [ClientError(client.error)] else []
      ensures first == First(failures)
    {
      hide Stops;
      NothingHeld();
      first := StopServices(firstFailure);
      failures := before;
      log := log + [ClientDrained];
      if client.Err? {
        failures := failures + [ClientError(client.error)];
        first := Record(first, ClientError(client.error));
      }
    }
  }

  lemma FirstOfMaybe(failure: Option<Failure>)
    ensures First(Maybe(failure)) == failure
  {}

  lemma FirstWith(failures: seq<Failure>, failure: Failure)
    ensures First(failures + [failure]) == Record(First(failures), failure)
    ensures failures + [] == failures
  {}

  lemma NothingHeld()
    ensures forall service: nat :: !Held(map[], service)
  {}

  lemma HeldIsReferenced(workers: map<nat, Option<nat>>, service: nat)
    ensures Held(workers, service) <==> |Holders(workers, service)| > 0
  {
    var holders := Holders(workers, service);
    if Held(workers, service) {
      var w :| w in workers && workers[w] == Some(service);
      assert w in holders;
    } else {
      assert holders == {};
    }
  }

  lemma {:induction false} AbortsJoinNothing(before: seq<Action>, after: seq<Action>, start: nat)
    requires start <= |before| && before <= after && forall i | |before| <= i < |after| :: after[i].Aborted?
    ensures JoinsSince(after, start) == JoinsSince(before, start)
    ensures OnlyDrains(before, start) ==> OnlyDrains(after, start)
    decreases |after|
  {
    if |after| > |before| {
      AbortsJoinNothing(before, after[..|after| - 1], start);
    } else {
      assert after == before;
    }
  }

  lemma {:induction false} JoinsAddUp(before: seq<Action>, after: seq<Action>, start: nat)
    requires start <= |before| && before <= after
    ensures JoinsSince(after, start) == JoinsSince(before, start) + JoinsSince(after, |before|)
    decreases |after|
  {
    if |after| > |before| {
      JoinsAddUp(before, after[..|after| - 1], start);
    } else {
      assert after == before;
    }
  }

  lemma {:induction false} JoinsAlone(before: seq<Action>, drained: seq<Action>)
    ensures JoinsSince(before + drained, |before|) == JoinsSince(drained, 0)
  {
    if drained != [] {
      var init, last := drained[..|drained| - 1], drained[|drained| - 1];
      JoinsAlone(before, init);
      Regroup(before, init, [last]);
      assert drained == init + [last];
      JoinsMore(before + init, |before|, last);
      JoinsMore(init, 0, last);
    }
  }

  lemma OnlyDrainsAlone(before: seq<Action>, after: seq<Action>)
    requires before <= after && OnlyDrains(after, |before|)
    ensures OnlyDrains(after[|before|..], 0) && after == before + after[|before|..]
  {
    forall i | 0 <= i < |after[|before|..]|
      ensures after[|before|..][i] == after[|before| + i]
    {}
  }

  // ----- the reason to stop

  /** The turn is awaited to its end, and reports that the worker ended. */
  predicate Tells(turn: Turn, worker: nat) {
    !turn.before && turn.wake.Completed? && turn.wake.worker == worker
  }

  /** One of the first `n` turns reports that the worker ended. */
  ghost predicate Told(turns: seq<Turn>, n: nat, worker: nat) {
    exists j | 0 <= j < n && j < |turns| :: Tells(turns[j], worker)
  }

  /** The workers that none of the first `n` turns reports as ended, and those that one of them does. */
  ghost function Untold(workers: map<nat, Option<nat>>, turns: seq<Turn>, n: nat): map<nat, Option<nat>> {
    map w | w in workers && !Told(turns, n, w) :: workers[w]
  }

  ghost function Reported(workers: map<nat, Option<nat>>, turns: seq<Turn>, n: nat): set<nat> {
    set w | w in workers && Told(turns, n, w)
  }

  /** Turn `k` reports a live worker, for the first time. */
  ghost predicate ReportsLive(workers: map<nat, Option<nat>>, turns: seq<Turn>, k: nat)
    requires k < |turns|
  {
    turns[k].wake.Completed? && turns[k].wake.worker in Untold(workers, turns, k)
  }

  /** Turn `k` is a reason to stop: shutdown is requested at its head or after it woke up, the channel is
      closed, or a worker ended and its failure is not ignored. */
  ghost predicate StopsAt(policy: Restarts.FailurePolicy, workers: map<nat, Option<nat>>, turns: seq<Turn>, k: nat)
    requires k < |turns|
  {
    || turns[k].before
    || (turns[k].wake.Changed? && (turns[k].wake.closed || turns[k].after))
    || (ReportsLive(workers, turns, k) && (turns[k].after || policy != Restarts.Ignore))
  }

  /** Turn `k` is the first reason to stop. */
  ghost predicate StopsFirst(policy: Restarts.FailurePolicy, workers: map<nat, Option<nat>>, turns: seq<Turn>, k: nat)
    requires k < |turns|
  {
    StopsAt(policy, workers, turns, k) && forall j | 0 <= j < k :: !StopsAt(policy, workers, turns, j)
  }

  /** What the main loop leaves behind when turn `k` stops it: exactly the workers that no turn up to this one
      has reported, and a failure exactly if a worker ended before anybody asked for shutdown. */
  ghost predicate LeftAt(workers: map<nat, Option<nat>>, turns: seq<Turn>, awaited: Awaited, k: nat)
    requires k < |turns|
  {
    && awaited.ended && awaited.workers == Untold(workers, turns, k + 1)
    && if turns[k].before || turns[k].after || turns[k].wake.Changed? then awaited.failure == None
       else
         match turns[k].wake.ending
         case Returned(Ok(_)) => awaited.failure == Some(ExitedUnexpectedly)
         case Returned(Err(error)) => awaited.failure == Some(WorkerError(error))
         case JoinError(error) => awaited.failure == Some(TaskFailed(error))
  }

  /** The first turn told something, and the rest of the turns tell the rest. */
  lemma UntoldLater(workers: map<nat, Option<nat>>, turns: seq<Turn>, n: nat)
    requires turns != []
    ensures
      var rest := if !turns[0].before && turns[0].wake.Completed? then Without(workers, turns[0].wake.worker) else workers;
      Untold(workers, turns, n + 1) == Untold(rest, turns[1..], n)
  {
    forall w: nat
      ensures Told(turns, n + 1, w) <==> Tells(turns[0], w) || Told(turns[1..], n, w)
    {
      if Told(turns, n + 1, w) && !Tells(turns[0], w) {
        var j :| 0 <= j < n + 1 && j < |turns| && Tells(turns[j], w);
        assert Tells(turns[1..][j - 1], w);
      }
      if Told(turns[1..], n, w) {
        var j :| 0 <= j < n && j < |turns[1..]| && Tells(turns[1..][j], w);
        assert Tells(turns[j + 1], w);
      }
    }
  }

  lemma NothingTold(workers: map<nat, Option<nat>>, turns: seq<Turn>)
    ensures Untold(workers, turns, 0) == workers
  {}

  /** A turn that is no reason to stop, and the workers it leaves. */
  function Onward(workers: map<nat, Option<nat>>, turn: Turn): map<nat, Option<nat>> {
    if turn.wake.Completed? then Without(workers, turn.wake.worker) else workers
  }

  lemma StopsLater(policy: Restarts.FailurePolicy, workers: map<nat, Option<nat>>, turns: seq<Turn>, k: nat)
    requires k + 1 < |turns| && !turns[0].before
    ensures StopsAt(policy, workers, turns, k + 1) <==> StopsAt(policy, Onward(workers, turns[0]), turns[1..], k)
    ensures Untold(workers, turns, k + 1) == Untold(Onward(workers, turns[0]), turns[1..], k)
    ensures Untold(workers, turns, k + 2) == Untold(Onward(workers, turns[0]), turns[1..], k + 1)
  {
    hide Untold;
    UntoldLater(workers, turns, k);
    UntoldLater(workers, turns, k + 1);
  }

  /** The main loop under every policy: it ends exactly if some turn is a reason to stop, and then the first such
      turn decides which workers are left and what failure is reported. */
  lemma {:induction false} MainLoopExactly(policy: Restarts.FailurePolicy, workers: map<nat, Option<nat>>, turns: seq<Turn>)
    returns (k: nat)
    ensures
      var awaited := Await(policy, workers, turns);
      if k < |turns| then StopsFirst(policy, workers, turns, k) && LeftAt(workers, turns, awaited, k)
      else
        && !awaited.ended && awaited.workers == Untold(workers, turns, |turns|)
        && forall j | 0 <= j < |turns| :: !StopsAt(policy, workers, turns, j)
    decreases turns
  {
    hide Untold;
    NothingTold(workers, turns);
    if turns == [] {
      return 0;
    }
    UntoldLater(workers, turns, 0);
    var turn := turns[0];
    if StopsAt(policy, workers, turns, 0) {
      NothingTold(Onward(workers, turn), turns[1..]);
      NothingTold(workers, turns[1..]);
      return 0;
    }
    var next := Onward(workers, turn);
    AbsentIsNoWakeUp(workers, turn);
    var rest := MainLoopExactly(policy, next, turns[1..]);
    k := rest + 1;
    hide StopsAt;
    forall j | 0 < j < |turns|
      ensures StopsAt(policy, workers, turns, j) <==> StopsAt(policy, next, turns[1..], j - 1)
    {
      StopsLater(policy, workers, turns, j - 1);
    }
    UntoldLater(workers, turns, |turns| - 1);
    if k < |turns| {
      StopsLater(policy, workers, turns, rest);
    }
  }

  lemma ReportedOrUntold(workers: map<nat, Option<nat>>, turns: seq<Turn>, n: nat)
    ensures multiset(Reported(workers, turns, n)) + multiset(Untold(workers, turns, n).Keys) == multiset(workers.Keys)
  {
    assert Reported(workers, turns, n) !! Untold(workers, turns, n).Keys;
    assert Reported(workers, turns, n) + Untold(workers, turns, n).Keys == workers.Keys;
  }

  /** The workers that the main loop reports and those that it leaves are all the workers, each of them once. */
  lemma EachIsAwaitedOnce(policy: Restarts.FailurePolicy, workers: map<nat, Option<nat>>, turns: seq<Turn>)
    ensures forall k | 0 <= k < |turns| && StopsFirst(policy, workers, turns, k) ::
              multiset(Reported(workers, turns, k + 1)) + multiset(Await(policy, workers, turns).workers.Keys) == multiset(workers.Keys)
  {
    hide Untold, Reported, Await, StopsAt;
    var last := MainLoopExactly(policy, workers, turns);
    forall k | 0 <= k < |turns| && StopsFirst(policy, workers, turns, k)
      ensures multiset(Reported(workers, turns, k + 1)) + multiset(Await(policy, workers, turns).workers.Keys) == multiset(workers.Keys)
    {
      assert k == last;
      ReportedOrUntold(workers, turns, k + 1);
    }
  }

  lemma AbsentIsNoWakeUp(workers: map<nat, Option<nat>>, turn: Turn)
    ensures turn.wake.Completed? && turn.wake.worker !in workers ==> Onward(workers, turn) == workers
  {}


  /** Under the ignore policy no worker failure ends the run or is reported. */
  lemma {:induction false} IgnoredFailuresDoNotEnd(policy: Restarts.FailurePolicy, workers: map<nat, Option<nat>>, turns: seq<Turn>)
    requires policy.Ignore?
    ensures Await(policy, workers, turns).failure == None
    decreases turns
  {
    if turns != [] {
      IgnoredFailuresDoNotEnd(policy, workers, turns[1..]);
      if turns[0].wake.Completed? {
        IgnoredFailuresDoNotEnd(policy, Without(workers, turns[0].wake.worker), turns[1..]);
      }
    }
  }

  /** The turn reports that a live worker ended. */
  predicate Reports(turn: Turn, workers: map<nat, Option<nat>>) {
    turn.wake.Completed? && turn.wake.worker in workers
  }

  /** Under the other policies a failure that ends the run is that of the first worker to end, and it ended
      before anybody asked for shutdown. */
  lemma {:induction false} FirstWorkerToEndIsReported(policy: Restarts.FailurePolicy, workers: map<nat, Option<nat>>, turns: seq<Turn>)
    requires !policy.Ignore?
    ensures Await(policy, workers, turns).failure.Some? <==>
            exists k | 0 <= k < |turns| :: EndsRun(workers, turns, k)
    ensures forall k | 0 <= k < |turns| && EndsRun(workers, turns, k) ::
              Await(policy, workers, turns).failure == Some(FailureOf(turns[k].wake.ending))
    decreases turns
  {
    if turns != [] {
      var turn := turns[0];
      if Quiet(turn) && !Reports(turn, workers) {
        FirstWorkerToEndIsReported(policy, workers, turns[1..]);
        forall k | 0 <= k < |turns|
          ensures EndsRun(workers, turns, k) <==> k > 0 && EndsRun(workers, turns[1..], k - 1)
        {
          EndsRunLater(workers, turns, k);
        }
        if Await(policy, workers, turns).failure.Some? {
          var k :| 0 <= k < |turns[1..]| && EndsRun(workers, turns[1..], k);
          assert EndsRun(workers, turns, k + 1);
        }
      } else if EndsRun(workers, turns, 0) {
        assert Await(policy, workers, turns).failure == Some(FailureOf(turn.wake.ending));
      }
    }
  }

  /** Nobody asks for shutdown at this turn. */
  predicate Quiet(turn: Turn) {
    !turn.before && (turn.wake.Changed? ==> !turn.wake.closed && !turn.after)
  }

  /** The first worker to end does so at turn `k`, and nobody has asked for shutdown by then. */
  ghost predicate EndsRun(workers: map<nat, Option<nat>>, turns: seq<Turn>, k: nat)
    requires k < |turns|
  {
    && (forall j | 0 <= j < k :: Quiet(turns[j]) && !Reports(turns[j], workers))
    && !turns[k].before && Reports(turns[k], workers) && !turns[k].after
  }

  lemma EndsRunLater(workers: map<nat, Option<nat>>, turns: seq<Turn>, k: nat)
    requires k < |turns| && Quiet(turns[0]) && !Reports(turns[0], workers)
    ensures EndsRun(workers, turns, k) <==> k > 0 && EndsRun(workers, turns[1..], k - 1)
  {
    if k > 0 {
      assert turns[1..][k - 1] == turns[k];
      assert forall j | 0 <= j < k - 1 :: turns[1..][j] == turns[j + 1];
      if EndsRun(workers, turns[1..], k - 1) {
        forall j | 0 <= j < k
          ensures Quiet(turns[j]) && !Reports(turns[j], workers)
        {
          assert j > 0 ==> turns[1..][j - 1] == turns[j];
        }
      }
    }
  }
}
