/** The supervisors of the runtime (nats-micro/src/app/typed_runtime.rs): each runs its worker again after a
    failure, as long as the restart budget allows and nobody asks for shutdown. */
module Supervisors {
  import opened Text
  import opened Restarts

  /** How waiting out the backoff ends: the time is up, or the shutdown receiver reports something first. */
  datatype Wait = Elapses | Changes(requested: bool) | Closes

  /** One incarnation of the worker: its result, whether shutdown was requested by then, the clock readings of
      the restart tracker, the end of the backoff and the outcome of registering the endpoint again. */
  datatype Incarnation = Incarnation(
    result: Result<(), Str>, requested: bool, call: Call, wait: Wait, register: Result<(), Str>)

  /** A worker that returns without being asked to has failed. */
  datatype Failure = ExitedUnexpectedly | WorkerError(error: Str) | RegisterError(error: Str)

  function FailureOf(result: Result<(), Str>): Failure {
    if result.Ok? then ExitedUnexpectedly else WorkerError(result.error)
  }

  /** `wait_backoff`. */
  predicate StopsWaiting(wait: Wait) {
    wait.Closes? || (wait.Changes? && wait.requested)
  }

  /** How a supervisor ends, if it does; when it asked for a restart; how often it got one; and how often it
      registered its endpoint again. */
  datatype Course = Course(result: Option<Result<(), Failure>>, calls: seq<Call>, granted: nat, registered: nat)

  function Supervised(t: Tracker, script: seq<Incarnation>): Course
    decreases script
  {
    if script == [] then Course(None, [], 0, 0)
    else
      var inc := script[0];
      if inc.requested then Course(Some(Ok(())), [], 0, 0)
      else
        var (t1, delay) := Advance(t, inc.call.readAt, inc.call.resetAt);
        if delay.None? then Course(Some(Err(FailureOf(inc.result))), [inc.call], 0, 0)
        else if StopsWaiting(inc.wait) then Course(Some(Ok(())), [inc.call], 1, 0)
        else if inc.register.Err? then Course(Some(Err(RegisterError(inc.register.error))), [inc.call], 1, 1)
        else
          var rest := Supervised(t1, script[1..]);
          Course(rest.result, [inc.call] + rest.calls, rest.granted + 1, rest.registered + 1)
  }

  function Resumed(calls: seq<Call>, granted: nat, registered: nat, rest: Course): Course {
    Course(rest.result, calls + rest.calls, granted + rest.granted, registered + rest.registered)
  }

  /** The loop of the four `supervise_*` functions. */
  method Supervise(policy: FailurePolicy, startedAt: nat, script: seq<Incarnation>) returns (course: Course)
    ensures course == Supervised(Fresh(policy, startedAt), script)
  {
    hide Advance;
    var restarts := new RestartTracker(policy, startedAt);
    ghost var all := Supervised(Fresh(policy, startedAt), script);
    var calls: seq<Call>, granted, registered := [], 0, 0;
    assert all == Resumed([], 0, 0, all);
    for i := 0 to |script|
      invariant all == Resumed(calls, granted, registered, Supervised(restarts.View(), script[i..]))
    {
      var inc := script[i];
      DropOne(script, i);
      if inc.requested {
        return Course(Some(Ok(())), calls, granted, registered);
      }
      var failure := FailureOf(inc.result);
      var delay := restarts.NextDelay(inc.call.readAt, inc.call.resetAt);
      calls := calls + [inc.call];
      if delay.None? {
        return Course(Some(Err(failure)), calls, granted, registered);
      }
      granted := granted + 1;
      if StopsWaiting(inc.wait) {
        return Course(Some(Ok(())), calls, granted, registered);
      }
      registered := registered + 1;
      if inc.register.Err? {
        return Course(Some(Err(RegisterError(inc.register.error))), calls, granted, registered);
      }
      ghost var rest := Supervised(restarts.View(), script[i + 1..]);
      Regroup(calls[..|calls| - 1], [inc.call], rest.calls);
    }
    return Course(None, calls, granted, registered);
  }

  /** The grants of the tracker are the restarts of the supervisor: it asks once for each incarnation that
      ended by itself, and only the last request can be refused. */
  lemma {:induction false} RestartsAreGrants(t: Tracker, epoch: nat, script: seq<Incarnation>)
    requires t.policy.Restart?
    ensures
      var course, grants := Supervised(t, script), Grants(t, epoch, Supervised(t, script).calls);
      && course.granted == |grants| <= |course.calls| <= |grants| + 1
      && forall k | 0 <= k < |grants| :: grants[k].at == course.calls[k].readAt
    decreases script
  {
    if script != [] && !script[0].requested {
      var inc := script[0];
      var (t1, delay) := Advance(t, inc.call.readAt, inc.call.resetAt);
      var epoch1 := if Elapsed(t.windowStarted, inc.call.readAt) > t.policy.window then epoch + 1 else epoch;
      assert [inc.call][1..] == [] && Grants(t1, epoch1, []) == [];
      if delay.Some? && !StopsWaiting(inc.wait) && inc.register.Ok? {
        RestartsAreGrants(t1, epoch1, script[1..]);
        var rest := Supervised(t1, script[1..]);
        assert ([inc.call] + rest.calls)[1..] == rest.calls;
      }
    }
  }

  /** A supervisor restarts its worker at most twice as often as its budget in any stretch of time as long as
      the window: restarts `i` to `j`, asked for within one window length, number at most twice
      `maxRestarts`. */
  lemma RestartBudget(policy: FailurePolicy, startedAt: nat, script: seq<Incarnation>, i: nat, j: nat)
    requires Validated(policy) && Ordered(startedAt, Supervised(Fresh(policy, startedAt), script).calls)
    requires
      var course := Supervised(Fresh(policy, startedAt), script);
      i <= j < course.granted && j < |course.calls|
      && course.calls[j].readAt <= course.calls[i].readAt + policy.window
    ensures j - i + 1 <= 2 * policy.maxRestarts
  {
    hide Supervised, Grants;
    RestartsAreGrants(Fresh(policy, startedAt), 0, script);
    AnyWindowGrantsAtMostTwiceTheBudget(policy, startedAt, Supervised(Fresh(policy, startedAt), script).calls, i, j);
  }

  /** The incarnation ended by itself, its restart was not called off while waiting, and the endpoint was
      registered again. */
  predicate IsFollowed(inc: Incarnation) {
    !inc.requested && (inc.wait == Elapses || inc.wait == Changes(false)) && inc.register.Ok?
  }

  /** What ended the supervisor at incarnation `k`, after it had asked for restarts and registered `k` times. */
  ghost predicate EndsAt(t: Tracker, script: seq<Incarnation>, course: Course, k: nat)
    requires k < |script|
  {
    var inc := script[k];
    if inc.requested then course.result == Some(Ok(())) && |course.calls| == course.granted == course.registered == k
    else
      && |course.calls| == k + 1 && course.calls[k] == inc.call
      && if course.granted == k then
           && course.registered == k
           && match inc.result
              case Ok(_) => course.result == Some(Err(ExitedUnexpectedly))
              case Err(error) => course.result == Some(Err(WorkerError(error)))
         else
           && course.granted == k + 1
           && if inc.wait == Closes || inc.wait == Changes(true) then
                course.result == Some(Ok(())) && course.registered == k
              else
                && course.registered == k + 1
                && inc.register.Err? && course.result == Some(Err(RegisterError(inc.register.error)))
  }

  /** The course of every supervisor, incarnation by incarnation. It reaches some incarnation `k`; the ones
      before it ended by themselves, were granted a restart and were registered again. If it goes on for ever
      these are all. If it ends, it does so at `k`: because shutdown was requested, because a restart was
      refused, because shutdown was requested or the channel was closed while it waited, in which case nothing
      is registered any more, or because the registration failed. */
  lemma {:induction false} CourseOfASupervisor(t: Tracker, script: seq<Incarnation>) returns (k: nat)
    ensures k <= |script|
    ensures
      var course := Supervised(t, script);
      && (forall j | 0 <= j < k :: IsFollowed(script[j]) && j < |course.calls| && course.calls[j] == script[j].call)
      && if course.result.None? then k == |script| == |course.calls| == course.granted == course.registered
         else k < |script| && EndsAt(t, script, course, k)
    decreases script
  {
    if script == [] {
      return 0;
    }
    var inc := script[0];
    var (t1, delay) := Advance(t, inc.call.readAt, inc.call.resetAt);
    if inc.requested || delay.None? || StopsWaiting(inc.wait) || inc.register.Err? {
      return 0;
    }
    hide Advance;
    var rest := CourseOfASupervisor(t1, script[1..]);
    k := rest + 1;
    var course := Supervised(t, script);
    assert course.calls[1..] == Supervised(t1, script[1..]).calls;
    forall j | 0 <= j < k
      ensures IsFollowed(script[j]) && j < |course.calls| && course.calls[j] == script[j].call
    {
      assert j > 0 ==> script[j] == script[1..][j - 1] && course.calls[j] == course.calls[1..][j - 1];
    }
  }

  /** An incarnation that is granted a restart ends the supervisor well, with nothing registered after it, if and
      only if shutdown was requested or the channel was closed while it waited; in every other case it goes on
      to register. */
  lemma WaitDecides(t: Tracker, script: seq<Incarnation>, k: nat)
    requires k < |script| && k < Supervised(t, script).granted
    ensures
      var course := Supervised(t, script);
      && (course.result == Some(Ok(())) && course.granted == k + 1 && course.registered == k <==>
          script[k].wait == Closes || script[k].wait == Changes(true))
      && (course.registered > k <==> script[k].wait == Elapses || script[k].wait == Changes(false))
  {
    var last := CourseOfASupervisor(t, script);
  }

  /** Without a restart policy the first failure is the last: the supervisor ends with it, unless shutdown was
      requested by then. */
  lemma WithoutPolicyNoRestart(policy: FailurePolicy, startedAt: nat, script: seq<Incarnation>)
    requires !policy.Restart? && script != []
    ensures
      var course := Supervised(Fresh(policy, startedAt), script);
      && course.granted == 0
      && course.result == Some(if script[0].requested then Ok(()) else Err(FailureOf(script[0].result)))
  {}

  /** A supervisor that ends well was asked to, by the end of an incarnation or while it waited. */
  lemma {:induction false} EndsWellOnlyWhenAsked(t: Tracker, script: seq<Incarnation>)
    requires Supervised(t, script).result == Some(Ok(()))
    ensures exists k | 0 <= k < |script| :: script[k].requested || StopsWaiting(script[k].wait)
    decreases script
  {
    var inc := script[0];
    if !inc.requested && !StopsWaiting(inc.wait) {
      var t1 := Advance(t, inc.call.readAt, inc.call.resetAt).0;
      EndsWellOnlyWhenAsked(t1, script[1..]);
      var k :| 0 <= k < |script[1..]| && (script[1..][k].requested || StopsWaiting(script[1..][k].wait));
      assert script[k + 1] == script[1..][k];
    }
  }
}
