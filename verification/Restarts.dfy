/** The restart budget of a supervisor: exponential backoff inside a sliding window of restarts
    (nats-micro/src/app/typed_runtime.rs). Times and durations are natural numbers of nanoseconds. */
module Restarts {
  import opened Text

  datatype FailurePolicy =
    | Ignore
    | ShutdownApp
    | Restart(initialBackoff: nat, maxBackoff: nat, maxRestarts: nat, window: nat)

  /** What `AppConfig::validate` accepts of a restart policy, whose backoffs are `Duration`s. */
  predicate Validated(policy: FailurePolicy) {
    && policy.Restart?
    && 0 < policy.initialBackoff <= policy.maxBackoff <= MAX_DURATION
    && 0 < policy.maxRestarts && 0 < policy.window
  }

  function Min(a: nat, b: nat): nat { if a <= b then a else b }

  function SaturatingDouble(d: nat): nat { Min(2 * d, MAX_DURATION) }

  function Elapsed(since: nat, now: nat): nat { if now <= since then 0 else now - since }

  datatype Tracker = Tracker(policy: FailurePolicy, windowStarted: nat, restarts: nat, nextBackoff: nat)

  function Fresh(policy: FailurePolicy, now: nat): Tracker {
    Tracker(policy, now, 0, if policy.Restart? then policy.initialBackoff else 0)
  }

  /** The window starts over once more than its length has elapsed. */
  function Rolled(t: Tracker, readAt: nat, resetAt: nat): Tracker
    requires t.policy.Restart?
  {
    if Elapsed(t.windowStarted, readAt) > t.policy.window then
      t.(windowStarted := resetAt, restarts := 0, nextBackoff := t.policy.initialBackoff)
    else t
  }

  function Advance(t: Tracker, readAt: nat, resetAt: nat): (Tracker, Option<nat>) {
    if !t.policy.Restart? then (t, None)
    else
      var t1 := Rolled(t, readAt, resetAt);
      if t1.restarts >= t.policy.maxRestarts then (t1, None)
      else (t1.(restarts := t1.restarts + 1, nextBackoff := Min(SaturatingDouble(t1.nextBackoff), t.policy.maxBackoff)),
            Some(t1.nextBackoff))
  }

  class RestartTracker {
    const policy: FailurePolicy
    var windowStarted: nat
    var restarts: nat
    var nextBackoff: nat

    function View(): Tracker
      reads this
    {
      Tracker(policy, windowStarted, restarts, nextBackoff)
    }

    constructor (policy: FailurePolicy, now: nat)
      ensures View() == Fresh(policy, now)
    {
      this.policy := policy;
      windowStarted, restarts := now, 0;
      nextBackoff := if policy.Restart? then policy.initialBackoff else 0;
    }

    /** `next_delay`. It reads the clock once to test the window and again when it starts a new one. */
    method NextDelay(readAt: nat, resetAt: nat) returns (delay: Option<nat>)
      modifies this
      ensures (View(), delay) == Advance(old(View()), readAt, resetAt)
    {
      if !policy.Restart? {
        return None;
      }
      if Elapsed(windowStarted, readAt) > policy.window {
        windowStarted := resetAt;
        restarts := 0;
        nextBackoff := policy.initialBackoff;
      }
      if restarts >= policy.maxRestarts {
        return None;
      }
      restarts := restarts + 1;
      delay := Some(nextBackoff);
      nextBackoff := Min(SaturatingDouble(nextBackoff), policy.maxBackoff);
    }
  }

  /** The two clock readings of one `next_delay` call. */
  datatype Call = Call(readAt: nat, resetAt: nat)

  ghost predicate Ordered(from: nat, calls: seq<Call>)
    decreases calls
  {
    calls == [] || (from <= calls[0].readAt <= calls[0].resetAt && Ordered(calls[0].resetAt, calls[1..]))
  }

  /** A granted restart: when it was asked for, its delay, which window it fell into, how many grants
      that window already had, and when that window started. */
  datatype Grant = Grant(at: nat, delay: nat, epoch: nat, index: nat, started: nat)

  /** The grants of a run of calls, starting from a tracker in the given epoch. */
  ghost function Grants(t: Tracker, epoch: nat, calls: seq<Call>): seq<Grant>
    requires t.policy.Restart?
    decreases calls
  {
    if calls == [] then []
    else
      var call := calls[0];
      var rolled := Rolled(t, call.readAt, call.resetAt);
      var epoch1 := if Elapsed(t.windowStarted, call.readAt) > t.policy.window then epoch + 1 else epoch;
      var (next, delay) := Advance(t, call.readAt, call.resetAt);
      match delay
      case None => Grants(next, epoch1, calls[1..])
      case Some(d) =>
        [Grant(call.readAt, d, epoch1, rolled.restarts, rolled.windowStarted)] + Grants(next, epoch1, calls[1..])
  }

  function Pow2(k: nat): nat {
    if k == 0 then 1 else 2 * Pow2(k - 1)
  }

  /** The k-th delay of a window. */
  function Backoff(policy: FailurePolicy, k: nat): nat
    requires policy.Restart?
  {
    Min(policy.initialBackoff * Pow2(k), policy.maxBackoff)
  }

  lemma BackoffStep(policy: FailurePolicy, k: nat)
    requires Validated(policy)
    ensures Backoff(policy, 0) == policy.initialBackoff
    ensures Min(SaturatingDouble(Backoff(policy, k)), policy.maxBackoff) == Backoff(policy, k + 1)
  {
    assert policy.initialBackoff * Pow2(k + 1) == 2 * (policy.initialBackoff * Pow2(k));
  }

  /** A tracker between calls: its backoff and its budget both follow from the restarts it counted. */
  ghost predicate Sound(t: Tracker) {
    Validated(t.policy) && t.restarts <= t.policy.maxRestarts && t.nextBackoff == Backoff(t.policy, t.restarts)
  }

  /** A restart is refused exactly when the budget of the current window is spent and the window is not over
      yet. */
  lemma RefusesExactlyWhenSpent(t: Tracker, readAt: nat, resetAt: nat)
    requires Sound(t)
    ensures Advance(t, readAt, resetAt).1 == None <==>
            t.restarts == t.policy.maxRestarts && readAt <= t.windowStarted + t.policy.window
  {}

  /** Grant `b` directly follows `a`: next in the same window, or first in the next one. */
  ghost predicate Follows(window: nat, a: Grant, b: Grant) {
    && a.at <= b.at
    && if b.epoch == a.epoch then b.index == a.index + 1 && b.started == a.started
       else b.epoch == a.epoch + 1 && b.index == 0 && a.started + window < b.at <= b.started
  }

  /** The first grant still to come from tracker `t`, asked for no earlier than `now`. */
  ghost predicate Upcoming(t: Tracker, epoch: nat, now: nat, g: Grant)
    requires t.policy.Restart?
  {
    && now <= g.at
    && if g.epoch == epoch then g.index == t.restarts && g.started == t.windowStarted
       else g.epoch == epoch + 1 && g.index == 0 && t.windowStarted + t.policy.window < g.at <= g.started
  }

  ghost predicate Chain(policy: FailurePolicy, grants: seq<Grant>)
    requires policy.Restart?
  {
    && (forall i | 0 <= i < |grants| ::
          grants[i].index < policy.maxRestarts && grants[i].delay == Backoff(policy, grants[i].index))
    && (forall i | 0 <= i < |grants| - 1 :: Follows(policy.window, grants[i], grants[i + 1]))
  }

  /** Every run of calls under a validated policy grants a chain: the k-th delay of each window is
      min(initial * 2^k, max), and windows follow each other more than their length apart. */
  lemma {:induction false} GrantsFormChain(t: Tracker, epoch: nat, now: nat, calls: seq<Call>)
    requires Sound(t) && Ordered(now, calls)
    ensures Chain(t.policy, Grants(t, epoch, calls))
    ensures Grants(t, epoch, calls) != [] ==> Upcoming(t, epoch, now, Grants(t, epoch, calls)[0])
    decreases calls
  {
    if calls != [] {
      var call := calls[0];
      var rolled := Rolled(t, call.readAt, call.resetAt);
      var epoch1 := if Elapsed(t.windowStarted, call.readAt) > t.policy.window then epoch + 1 else epoch;
      var (next, delay) := Advance(t, call.readAt, call.resetAt);
      BackoffStep(t.policy, rolled.restarts);
      GrantsFormChain(next, epoch1, call.resetAt, calls[1..]);
    }
  }

  function After(t: Tracker, calls: seq<Call>): Tracker
    decreases calls
  {
    if calls == [] then t else After(Advance(t, calls[0].readAt, calls[0].resetAt).0, calls[1..])
  }

  /** The tracker has counted the grants of its window, of which `g` was the last. */
  ghost predicate Counts(t: Tracker, g: Grant) {
    t.restarts == g.index + 1 && t.windowStarted == g.started
  }

  lemma {:induction false} TrackerCountsGrants(t: Tracker, epoch: nat, calls: seq<Call>)
    requires Sound(t)
    ensures Sound(After(t, calls)) && After(t, calls).policy == t.policy
    ensures
      var grants := Grants(t, epoch, calls);
      if grants == [] then After(t, calls) == t else Counts(After(t, calls), grants[|grants| - 1])
    decreases calls
  {
    if calls != [] {
      var call := calls[0];
      var rolled := Rolled(t, call.readAt, call.resetAt);
      var epoch1 := if Elapsed(t.windowStarted, call.readAt) > t.policy.window then epoch + 1 else epoch;
      BackoffStep(t.policy, rolled.restarts);
      TrackerCountsGrants(Advance(t, call.readAt, call.resetAt).0, epoch1, calls[1..]);
    }
  }

  /** After any run of calls the next restart is refused exactly when the last one granted was the last of its
      window's budget and that window is not over. */
  lemma {:induction false} RefusedExactlyOverRuns(policy: FailurePolicy, start: nat, calls: seq<Call>, next: Call)
    requires Validated(policy)
    ensures
      var grants := Grants(Fresh(policy, start), 0, calls);
      Advance(After(Fresh(policy, start), calls), next.readAt, next.resetAt).1 == None <==>
      && grants != []
      && var last := grants[|grants| - 1];
         last.index + 1 == policy.maxRestarts && next.readAt <= last.started + policy.window
  {
    BackoffStep(policy, 0);
    TrackerCountsGrants(Fresh(policy, start), 0, calls);
    RefusesExactlyWhenSpent(After(Fresh(policy, start), calls), next.readAt, next.resetAt);
  }

  lemma {:induction false} EpochsOnlyGrow(policy: FailurePolicy, grants: seq<Grant>, i: nat, j: nat)
    requires policy.Restart? && Chain(policy, grants) && i <= j < |grants|
    ensures grants[i].at <= grants[j].at && grants[i].epoch <= grants[j].epoch
    ensures grants[i].epoch < grants[j].epoch ==> grants[i].at <= grants[j].started
    ensures grants[i].epoch + 1 < grants[j].epoch ==> grants[i].at + policy.window < grants[j].at
    decreases j
  {
    if i < j {
      EpochsOnlyGrow(policy, grants, i, j - 1);
      assert Follows(policy.window, grants[j - 1], grants[j - 1 + 1]);
    }
  }

  /** Where a grant stands in the run is fixed by the windows before it, each holding at most
      `maxRestarts` grants. */
  lemma {:induction false} PositionsInChain(policy: FailurePolicy, grants: seq<Grant>, i: nat, j: nat)
    requires policy.Restart? && Chain(policy, grants) && i <= j < |grants|
    ensures grants[i].epoch <= grants[j].epoch
    ensures j - i <= policy.maxRestarts * (grants[j].epoch - grants[i].epoch) + grants[j].index - grants[i].index
    decreases j
  {
    hide Backoff;
    if i < j {
      PositionsInChain(policy, grants, i, j - 1);
      assert Follows(policy.window, grants[j - 1], grants[j - 1 + 1]);
      if grants[j].epoch != grants[j - 1].epoch {
        OneMore(policy.maxRestarts, grants[j - 1].epoch - grants[i].epoch);
        assert grants[j].epoch - grants[i].epoch == grants[j - 1].epoch - grants[i].epoch + 1;
      }
    }
  }

  lemma OneMore(m: nat, windows: nat)
    ensures m * (windows + 1) == m * windows + m
  {}

  /** No stretch of time as long as the window sees more than twice the budget: grants `i` to `j`, asked
      for within one window length of each other, number at most `2 * maxRestarts`. */
  lemma {:induction false} AnyWindowGrantsAtMostTwiceTheBudget(policy: FailurePolicy, start: nat, calls: seq<Call>, i: nat, j: nat)
    requires Validated(policy) && Ordered(start, calls)
    requires i <= j < |Grants(Fresh(policy, start), 0, calls)|
    requires
      var grants := Grants(Fresh(policy, start), 0, calls);
      grants[j].at <= grants[i].at + policy.window
    ensures j - i + 1 <= 2 * policy.maxRestarts
  {
    var t := Fresh(policy, start);
    var grants := Grants(t, 0, calls);
    BackoffStep(policy, 0);
    GrantsFormChain(t, 0, start, calls);
    EpochsOnlyGrow(policy, grants, i, j);
    PositionsInChain(policy, grants, i, j);
    var windows := grants[j].epoch - grants[i].epoch;
    assert windows == 0 || windows == 1;
    assert policy.maxRestarts * windows <= policy.maxRestarts;
  }

  /** The window that begins with a grant outlasts the window length before the next one begins. */
  lemma {:induction false} WindowsAreApart(policy: FailurePolicy, grants: seq<Grant>, i: nat, j: nat)
    requires policy.Restart? && Chain(policy, grants) && i <= j < |grants|
    ensures grants[i].epoch <= grants[j].epoch
    ensures grants[i].epoch == grants[j].epoch ==> grants[i].started == grants[j].started
    ensures grants[i].epoch < grants[j].epoch ==> grants[i].started + policy.window < grants[j].at
    decreases j
  {
    hide Backoff;
    if i < j {
      WindowsAreApart(policy, grants, i, j - 1);
      assert Follows(policy.window, grants[j - 1], grants[j - 1 + 1]);
    }
  }

  /** Once a first restart has been granted, no stretch of time as long as the window sees as much as twice the
      budget: only the window that begins with the tracker may have been under way for a while at its first
      grant. */
  lemma {:induction false} LaterGrantsAreFewer(policy: FailurePolicy, grants: seq<Grant>, i: nat, j: nat)
    requires Validated(policy) && Chain(policy, grants) && 0 < i <= j < |grants|
    requires grants[j].at <= grants[i].at + policy.window
    ensures j - i + 1 < 2 * policy.maxRestarts
  {
    hide Backoff;
    EpochsOnlyGrow(policy, grants, i, j);
    PositionsInChain(policy, grants, i, j);
    WindowsAreApart(policy, grants, i, j);
    assert Follows(policy.window, grants[i - 1], grants[i - 1 + 1]);
    var windows := grants[j].epoch - grants[i].epoch;
    if windows == 0 {
      assert policy.maxRestarts * windows == 0;
    } else {
      assert windows == 1;
      assert policy.maxRestarts * windows == policy.maxRestarts;
    }
  }

  /** The j-th grant falls into a window numbered r, so at most `maxRestarts * (1 + r)` restarts were
      granted by then, and starting r windows over took more than r window lengths. */
  lemma {:induction false} TotalGrantsNeedTime(policy: FailurePolicy, start: nat, calls: seq<Call>, j: nat)
    requires Validated(policy) && Ordered(start, calls)
    requires j < |Grants(Fresh(policy, start), 0, calls)|
    ensures
      var grant := Grants(Fresh(policy, start), 0, calls)[j];
      && j + 1 <= policy.maxRestarts * (1 + grant.epoch)
      && (grant.epoch > 0 ==> start + grant.epoch * policy.window < grant.at)
  {
    var t := Fresh(policy, start);
    var grants := Grants(t, 0, calls);
    BackoffStep(policy, 0);
    GrantsFormChain(t, 0, start, calls);
    PositionsInChain(policy, grants, 0, j);
    var first, last := grants[0].epoch, grants[j].epoch;
    assert policy.maxRestarts * (last - first) + policy.maxRestarts * first == policy.maxRestarts * last by {
      Distribute(policy.maxRestarts, last - first, first);
    }
    ResetsTakeTime(policy, start, grants, j);
  }

  lemma Distribute(m: nat, a: nat, b: nat)
    ensures m * a + m * b == m * (a + b)
  {}

  lemma {:induction false} ResetsTakeTime(policy: FailurePolicy, start: nat, grants: seq<Grant>, j: nat)
    requires policy.Restart? && Chain(policy, grants) && j < |grants|
    requires Upcoming(Fresh(policy, start), 0, start, grants[0])
    ensures start + grants[j].epoch * policy.window <= grants[j].started
    ensures grants[j].epoch > 0 ==> start + grants[j].epoch * policy.window < grants[j].at
    decreases j
  {
    if j > 0 {
      ResetsTakeTime(policy, start, grants, j - 1);
      assert Follows(policy.window, grants[j - 1], grants[j - 1 + 1]);
      if grants[j].epoch != grants[j - 1].epoch {
        Distribute(policy.window, grants[j - 1].epoch, 1);
      }
    }
  }
}
