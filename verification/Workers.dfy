/** The worker loop shared by request endpoints, subscriptions and consumers (nats-micro/src/runtime): one
    task that receives messages, keeps a bounded number of them in flight and drains on shutdown. One
    iteration of the loop, with its biased `select!`, is one atomic step; which branches are ready, and with
    what, comes from outside. */
module Workers {
  import opened Text

  datatype Kind = RequestEndpoint | Subscription | Consumer

  datatype PanicPolicy = FailWorker | LogAndContinue | Propagate

  datatype Config = Config(kind: Kind, concurrency: nat, policy: PanicPolicy)

  /** What the shutdown receiver sees: the sender is gone, or the state changed. */
  datatype Signal = Closed | Changed(requested: bool)

  datatype Completion = Succeeded | Failed | Panicked

  /** `StreamError` is a failed delivery, which only a consumer's stream has. */
  datatype Incoming = Message | StreamError | StreamEnd

  /** What is ready when the `select!` of one iteration resolves. `stopOk` is the answer to stopping the
      endpoint or the subscription, should it come to that. */
  datatype Poll = Poll(changed: Option<Signal>, stopOk: bool, completed: Option<(nat, Completion)>, incoming: Option<Incoming>)

  datatype Exit =
    | Drained
    | ZeroConcurrency
    | CompletionError(id: nat)
    | StreamEnded
    | UnsubscribeError
    | Unwound(id: nat)

  /** Messages are numbered in the order they were received. `stops` counts how often the endpoint or the
      subscription was told to stop. */
  datatype Worker = Worker(
    accepting: bool, received: nat, inFlight: set<nat>, finished: map<nat, Completion>, stops: nat, exit: Option<Exit>)

  // ----- one iteration

  /** `handle_completion`: whether the worker goes on. A panic that is not caught unwinds the worker. */
  function HandleCompletion(id: nat, completion: Completion, policy: PanicPolicy): Option<Exit> {
    match completion
    case Succeeded => None
    case Failed => Some(CompletionError(id))
    case Panicked =>
      match policy
      case LogAndContinue => None
      case FailWorker => Some(CompletionError(id))
      case Propagate => Some(Unwound(id))
  }

  predicate StopsAccepting(signal: Signal) {
    signal.Closed? || signal.requested
  }

  function Notice(config: Config, w: Worker, poll: Poll): Worker
    requires poll.changed.Some?
  {
    if !StopsAccepting(poll.changed.value) then w
    else
      match config.kind
      case RequestEndpoint => w.(accepting := false, stops := w.stops + 1)
      case Subscription =>
        w.(accepting := false, stops := w.stops + 1, exit := if poll.stopOk then None else Some(UnsubscribeError))
      case Consumer => w.(accepting := false)
  }

  predicate Completes(w: Worker, poll: Poll) {
    poll.completed.Some? && poll.completed.value.0 in w.inFlight
  }

  function Complete(config: Config, w: Worker, poll: Poll): Worker
    requires Completes(w, poll)
  {
    var (id, completion) := poll.completed.value;
    w.(inFlight := w.inFlight - {id}, finished := w.finished[id := completion],
       exit := HandleCompletion(id, completion, config.policy))
  }

  function Receive(config: Config, w: Worker, poll: Poll): Worker
    requires poll.incoming.Some?
  {
    match poll.incoming.value
    case Message => w.(received := w.received + 1, inFlight := w.inFlight + {w.received})
    case StreamEnd => w.(exit := Some(StreamEnded))
    case StreamError => if config.kind.Consumer? then w else w.(exit := Some(StreamEnded))
  }

  /** The check at the head of the loop. */
  function Settled(w: Worker): Worker {
    if w.exit.None? && !w.accepting && w.inFlight == {} then w.(exit := Some(Drained)) else w
  }

  /** The `select!` of one iteration; with nothing ready that is enabled, the worker keeps waiting. */
  function Selected(config: Config, w: Worker, poll: Poll): Worker {
    if w.accepting && |w.inFlight| < config.concurrency then
      if poll.changed.Some? then Notice(config, w, poll)
      else if Completes(w, poll) then Complete(config, w, poll)
      else if poll.incoming.Some? then Receive(config, w, poll)
      else w
    else
      if w.accepting && poll.changed.Some? then Notice(config, w, poll)
      else if Completes(w, poll) then Complete(config, w, poll)
      else w
  }

  /** One iteration, up to the check at the head of the next. */
  function Step(config: Config, w: Worker, poll: Poll): Worker {
    if w.exit.Some? then w else Settled(Selected(config, w, poll))
  }

  function Start(config: Config): Worker {
    Worker(true, 0, {}, map[], 0, if config.concurrency == 0 then Some(ZeroConcurrency) else None)
  }

  function Ran(config: Config, w: Worker, polls: seq<Poll>): Worker
    decreases polls
  {
    if polls == [] then w else Ran(config, Step(config, w, polls[0]), polls[1..])
  }

  // ----- the loop

  /** The loop of the three workers, over the polls it lives to see. */
  method RunWorker(config: Config, polls: seq<Poll>) returns (w: Worker)
    ensures w == Ran(config, Start(config), polls)
  {
    hide HandleCompletion;
    var accepting, received, stops := true, 0, 0;
    var inFlight: set<nat>, finished: map<nat, Completion> := {}, map[];
    if config.concurrency == 0 {
      ExitedStays(config, Start(config), polls);
      return Start(config);
    }
    var i := 0;
    while true
      invariant i <= |polls|
      invariant Ran(config, Settled(Worker(accepting, received, inFlight, finished, stops, None)), polls[i..]) ==
                Ran(config, Start(config), polls)
      decreases |polls| - i
    {
      w := Worker(accepting, received, inFlight, finished, stops, None);
      if !accepting && inFlight == {} {
        ExitedStays(config, Settled(w), polls[i..]);
        return w.(exit := Some(Drained));
      }
      if i == |polls| {
        return;
      }
      var poll := polls[i];
      assert polls[i..][0] == poll && polls[i..][1..] == polls[i + 1..];
      i := i + 1;
      ExitedStays(config, Selected(config, w, poll), polls[i..]);
      if accepting && |inFlight| < config.concurrency {
        if poll.changed.Some? {
          if StopsAccepting(poll.changed.value) {
            accepting := false;
            if !config.kind.Consumer? {
              stops := stops + 1;
            }
            if config.kind.Subscription? && !poll.stopOk {
              return Worker(accepting, received, inFlight, finished, stops, Some(UnsubscribeError));
            }
          }
        } else if Completes(w, poll) {
          var (id, completion) := poll.completed.value;
          inFlight, finished := inFlight - {id}, finished[id := completion];
          var exit := HandleCompletion(id, completion, config.policy);
          if exit.Some? {
            return Worker(accepting, received, inFlight, finished, stops, exit);
          }
        } else if poll.incoming.Some? {
          match poll.incoming.value {
            case Message =>
              inFlight := inFlight + {received};
              received := received + 1;
            case StreamEnd =>
              return Worker(accepting, received, inFlight, finished, stops, Some(StreamEnded));
            case StreamError =>
              if !config.kind.Consumer? {
                return Worker(accepting, received, inFlight, finished, stops, Some(StreamEnded));
              }
          }
        }
      } else {
        if accepting && poll.changed.Some? {
          if StopsAccepting(poll.changed.value) {
            accepting := false;
            if !config.kind.Consumer? {
              stops := stops + 1;
            }
            if config.kind.Subscription? && !poll.stopOk {
              return Worker(accepting, received, inFlight, finished, stops, Some(UnsubscribeError));
            }
          }
        } else if Completes(w, poll) {
          var (id, completion) := poll.completed.value;
          inFlight, finished := inFlight - {id}, finished[id := completion];
          var exit := HandleCompletion(id, completion, config.policy);
          if exit.Some? {
            return Worker(accepting, received, inFlight, finished, stops, exit);
          }
        }
      }
    }
  }

  lemma {:induction false} ExitedStays(config: Config, w: Worker, polls: seq<Poll>)
    ensures w.exit.Some? ==> Ran(config, w, polls) == w && Settled(w) == w
    decreases polls
  {
    if polls != [] && w.exit.Some? {
      ExitedStays(config, w, polls[1..]);
    }
  }

  // ----- what every worker keeps

  /** The completions after which the worker goes on. */
  predicate Tolerated(completion: Completion, policy: PanicPolicy) {
    completion.Succeeded? || (completion.Panicked? && policy.LogAndContinue?)
  }

  /** The message an exit blames. */
  function Blamed(exit: Exit): Option<nat> {
    match exit
    case CompletionError(id) => Some(id)
    case Unwound(id) => Some(id)
    case _ => None
  }

  ghost predicate Upto(ids: set<nat>, n: nat) {
    forall id: nat :: id in ids <==> id < n
  }

  /** The exit says the truth about how the worker ended. */
  ghost predicate Justified(config: Config, w: Worker) {
    match w.exit
    case None => w.accepting || w.inFlight != {}
    case Some(exit) =>
      match exit
      case Drained => !w.accepting && w.inFlight == {}
      case ZeroConcurrency => config.concurrency == 0 && w.received == 0
      case CompletionError(id) =>
        id in w.finished && (w.finished[id].Failed? || (w.finished[id].Panicked? && config.policy.FailWorker?))
      case Unwound(id) => id in w.finished && w.finished[id].Panicked? && config.policy.Propagate?
      case StreamEnded => w.accepting
      case UnsubscribeError => config.kind.Subscription? && !w.accepting
  }

  /** Each received message is in flight or finished, and not both. */
  ghost predicate Counted(concurrency: nat, received: nat, inFlight: set<nat>, finished: set<nat>) {
    |inFlight| <= concurrency && inFlight !! finished && Upto(inFlight + finished, received)
  }

  /** A result that is not tolerated has ended the worker. */
  ghost predicate Blames(policy: PanicPolicy, finished: map<nat, Completion>, exit: Option<Exit>) {
    forall id | id in finished && !Tolerated(finished[id], policy) :: exit.Some? && Blamed(exit.value) == Some(id)
  }

  ghost predicate Inv(config: Config, w: Worker) {
    && Counted(config.concurrency, w.received, w.inFlight, w.finished.Keys)
    && (config.concurrency == 0 ==> w.exit == Some(ZeroConcurrency))
    && w.stops == (if w.accepting || config.kind.Consumer? then 0 else 1)
    && Blames(config.policy, w.finished, w.exit)
    && Justified(config, w)
  }

  lemma StartKeeps(config: Config)
    ensures Inv(config, Start(config))
  {}

  lemma CountedMove(concurrency: nat, received: nat, inFlight: set<nat>, finished: set<nat>, id: nat)
    requires Counted(concurrency, received, inFlight, finished) && id in inFlight
    ensures Counted(concurrency, received, inFlight - {id}, finished + {id}) && |inFlight - {id}| == |inFlight| - 1
  {
    assert (inFlight - {id}) + (finished + {id}) == inFlight + finished;
  }

  lemma CountedMore(concurrency: nat, received: nat, inFlight: set<nat>, finished: set<nat>)
    requires Counted(concurrency, received, inFlight, finished) && |inFlight| < concurrency
    ensures Counted(concurrency, received + 1, inFlight + {received}, finished)
  {
    assert received !in inFlight + finished;
    assert (inFlight + {received}) + finished == (inFlight + finished) + {received};
  }

  lemma SettledKeeps(config: Config, w: Worker)
    requires Counted(config.concurrency, w.received, w.inFlight, w.finished.Keys)
    requires config.concurrency == 0 ==> w.exit == Some(ZeroConcurrency)
    requires w.stops == (if w.accepting || config.kind.Consumer? then 0 else 1)
    requires Blames(config.policy, w.finished, w.exit)
    requires w.exit.Some? ==> Justified(config, w)
    ensures Inv(config, Settled(w))
  {
    hide Counted, Tolerated;
  }

  lemma CompleteKeeps(config: Config, w: Worker, poll: Poll)
    requires Inv(config, w) && w.exit.None? && Completes(w, poll)
    ensures Inv(config, Settled(Complete(config, w, poll)))
    ensures |Complete(config, w, poll).inFlight| == |w.inFlight| - 1
  {
    hide Counted;
    var (id, completion) := poll.completed.value;
    CountedMove(config.concurrency, w.received, w.inFlight, w.finished.Keys, id);
    var t := Complete(config, w, poll);
    assert t.finished.Keys == w.finished.Keys + {id};
    SettledKeeps(config, t);
  }

  lemma ReceiveKeeps(config: Config, w: Worker, poll: Poll)
    requires Inv(config, w) && w.exit.None? && w.accepting && |w.inFlight| < config.concurrency && poll.incoming.Some?
    ensures Inv(config, Settled(Receive(config, w, poll)))
  {
    hide Counted;
    CountedMore(config.concurrency, w.received, w.inFlight, w.finished.Keys);
    SettledKeeps(config, Receive(config, w, poll));
  }

  lemma NoticeKeeps(config: Config, w: Worker, poll: Poll)
    requires Inv(config, w) && w.exit.None? && w.accepting && poll.changed.Some?
    ensures Inv(config, Settled(Notice(config, w, poll)))
  {
    hide Counted;
    SettledKeeps(config, Notice(config, w, poll));
  }

  lemma StepKeeps(config: Config, w: Worker, poll: Poll)
    requires Inv(config, w)
    ensures Inv(config, Step(config, w, poll))
  {
    hide Inv, Notice, Complete, Receive, Completes;
    if w.exit.None? {
      if w.accepting && poll.changed.Some? {
        NoticeKeeps(config, w, poll);
      } else if Completes(w, poll) {
        CompleteKeeps(config, w, poll);
      } else if w.accepting && |w.inFlight| < config.concurrency && poll.incoming.Some? {
        ReceiveKeeps(config, w, poll);
      } else {
        WaitingKeeps(config, w);
      }
    }
  }

  lemma WaitingKeeps(config: Config, w: Worker)
    requires Inv(config, w) && w.exit.None?
    ensures Settled(w) == w
  {}

  lemma {:induction false} RanKeeps(config: Config, w: Worker, polls: seq<Poll>)
    requires Inv(config, w)
    ensures Inv(config, Ran(config, w, polls))
    decreases polls
  {
    hide Inv, Step;
    if polls != [] {
      StepKeeps(config, w, polls[0]);
      RanKeeps(config, Step(config, w, polls[0]), polls[1..]);
    }
  }

  /** In every reachable state of every worker: at most `concurrency` messages are in flight; each received
      message is in flight or finished, and never both; a worker that has not returned can always be woken,
      by a shutdown signal if it still accepts and by a completion otherwise; and a worker that returned
      normally finished every message it received, each with a result the panic policy tolerates. */
  lemma {:induction false} WorkerSafety(config: Config, polls: seq<Poll>)
    ensures
      var w := Ran(config, Start(config), polls);
      && |w.inFlight| <= config.concurrency
      && (forall id: nat :: id < w.received <==> (id in w.inFlight) != (id in w.finished))
      && (forall id | id in w.inFlight || id in w.finished :: id < w.received)
      && (w.exit.None? ==> w.accepting || w.inFlight != {})
      && (w.exit == Some(Drained) ==>
            forall id: nat | id < w.received :: id in w.finished && Tolerated(w.finished[id], config.policy))
  {
    StartKeeps(config);
    RanKeeps(config, Start(config), polls);
    var w := Ran(config, Start(config), polls);
    forall id: nat
      ensures id < w.received <==> (id in w.inFlight) != (id in w.finished)
    {
      assert id in w.inFlight + w.finished.Keys <==> id < w.received;
    }
    forall id | id in w.inFlight || id in w.finished
      ensures id < w.received
    {
      assert id in w.inFlight + w.finished.Keys;
    }
  }

  /** Once a worker no longer accepts, it never does again and receives nothing more, and each step takes
      one message out of flight, ends the worker or leaves it waiting. */
  lemma DrainingOnlyShrinks(config: Config, w: Worker, poll: Poll)
    requires Inv(config, w) && !w.accepting
    ensures
      var t := Step(config, w, poll);
      && !t.accepting && t.received == w.received && t.inFlight <= w.inFlight
      && (w.exit.None? ==> t == w || |t.inFlight| == |w.inFlight| - 1)
  {
    if w.exit.None? && Completes(w, poll) {
      CompleteKeeps(config, w, poll);
    }
  }

  lemma {:induction false} DrainingOnlyShrinksOverRuns(config: Config, w: Worker, polls: seq<Poll>)
    requires Inv(config, w) && !w.accepting
    ensures
      var t := Ran(config, w, polls);
      !t.accepting && t.received == w.received && t.inFlight <= w.inFlight
    decreases polls
  {
    hide Inv, Step;
    if polls != [] {
      StepKeeps(config, w, polls[0]);
      DrainingOnlyShrinks(config, w, polls[0]);
      DrainingOnlyShrinksOverRuns(config, Step(config, w, polls[0]), polls[1..]);
    }
  }

  /** A ready shutdown signal always wins over a waiting message, whatever else is ready. */
  lemma SignalWins(config: Config, w: Worker, poll: Poll)
    requires w.accepting && w.exit.None? && poll.changed.Some?
    ensures
      var t := Step(config, w, poll);
      t.received == w.received && t.inFlight == w.inFlight && (StopsAccepting(poll.changed.value) ==> !t.accepting)
  {}

  /** A message is received exactly when it is ready, nothing goes before it, and there is room for it. */
  lemma ReceivesExactlyWhenFree(config: Config, w: Worker, poll: Poll)
    ensures Step(config, w, poll).received != w.received <==>
            && w.exit.None? && w.accepting && |w.inFlight| < config.concurrency
            && poll.changed.None? && !Completes(w, poll) && poll.incoming == Some(Message)
  {}

  /** Somebody asks for shutdown, or nobody can any more. */
  predicate AsksToStop(signal: Option<Signal>) {
    signal == Some(Closed) || signal == Some(Changed(true))
  }

  /** The worker is at the point where it takes messages, with nothing to see first. */
  predicate TakesNext(config: Config, w: Worker, poll: Poll) {
    w.accepting && |w.inFlight| < config.concurrency && poll.changed == None && !Completes(w, poll)
  }

  /** A completion is handled: it is ready, and an accepting worker has no signal to see first. */
  predicate Handles(w: Worker, poll: Poll, id: nat, completion: Completion) {
    && poll.completed == Some((id, completion)) && id in w.inFlight
    && (w.accepting ==> poll.changed == None)
  }

  /** When a running worker stops accepting: exactly when it is asked to stop or nobody can ask any more. It
      then stops its endpoint or its subscription, and ends on a subscription exactly if that fails. */
  lemma StopsExactly(config: Config, w: Worker, poll: Poll)
    requires w.exit == None
    ensures
      var t, notices := Step(config, w, poll), w.accepting && AsksToStop(poll.changed);
      && t.accepting == (w.accepting && !notices)
      && t.stops == w.stops + (if notices && config.kind != Consumer then 1 else 0)
      && (t.exit == Some(UnsubscribeError) <==> notices && config.kind == Subscription && !poll.stopOk)
  {
    hide AsksToStop, StopsAccepting;
    AsksExactly(poll.changed);
    match config.kind {
      case RequestEndpoint =>
      case Subscription =>
      case Consumer =>
    }
  }

  lemma AsksExactly(signal: Option<Signal>)
    ensures AsksToStop(signal) <==> signal.Some? && StopsAccepting(signal.value)
  {
    match signal
    case None =>
    case Some(Closed) =>
    case Some(Changed(requested)) =>
  }

  /** When a running worker ends otherwise. It ends on its stream exactly when that has ended or, unless it is
      a consumer, failed; on a message exactly when its processing failed or, under the policy that says so,
      panicked; and it unwinds exactly when a panic propagates. */
  lemma EndsExactly(config: Config, w: Worker, poll: Poll, id: nat)
    requires w.exit == None
    ensures
      var t := Step(config, w, poll);
      && (t.exit == Some(StreamEnded) <==>
          TakesNext(config, w, poll)
          && (poll.incoming == Some(StreamEnd) || (poll.incoming == Some(StreamError) && config.kind != Consumer)))
      && (t.exit == Some(CompletionError(id)) <==>
          Handles(w, poll, id, Failed) || (Handles(w, poll, id, Panicked) && config.policy == FailWorker))
      && (t.exit == Some(Unwound(id)) <==> Handles(w, poll, id, Panicked) && config.policy == Propagate)
      && t.exit != Some(ZeroConcurrency)
  {}

  /** When a running worker ends normally: exactly when it no longer accepts, nothing is left in flight, and
      neither the last completion nor stopping the subscription was an error. */
  lemma DrainsExactly(config: Config, w: Worker, poll: Poll)
    requires w.exit == None
    ensures
      var t := Step(config, w, poll);
      t.exit == Some(Drained) <==>
      && !t.accepting && t.inFlight == {}
      && !(w.accepting && config.kind == Subscription && !poll.stopOk)
      && forall id: nat, completion | Handles(w, poll, id, completion) :: Tolerated(completion, config.policy)
  {
    var t := Step(config, w, poll);
    if Completes(w, poll) && !w.accepting {
      var (id, completion) := poll.completed.value;
      assert Handles(w, poll, id, completion);
    }
    StopsExactly(config, w, poll);
  }

  /** What a running worker does to its messages: one becomes finished exactly when its completion is handled,
      with that result, and one is received exactly when it is next. */
  lemma MessagesMoveExactly(config: Config, w: Worker, poll: Poll, id: nat, completion: Completion)
    requires w.exit == None && id !in w.finished
    ensures
      var t := Step(config, w, poll);
      && (id in t.finished && t.finished[id] == completion <==> Handles(w, poll, id, completion))
      && (t.received == w.received + 1 <==> TakesNext(config, w, poll) && poll.incoming == Some(Message))
      && (t.received == w.received || t.received == w.received + 1)
  {
    hide HandleCompletion, StopsAccepting;
    FinishesExactly(config, w, poll, id, completion);
    ReceivesExactlyWhenFree(config, w, poll);
    ReceivesOne(config, w, poll);
    hide Step, Completes;
  }

  lemma FinishesExactly(config: Config, w: Worker, poll: Poll, id: nat, completion: Completion)
    requires w.exit == None && id !in w.finished
    ensures
      var t := Step(config, w, poll);
      id in t.finished && t.finished[id] == completion <==> Handles(w, poll, id, completion)
  {
    hide HandleCompletion, StopsAccepting;
    if poll.completed.Some? {
      assert poll.completed == Some((poll.completed.value.0, poll.completed.value.1));
    }
  }

  lemma ReceivesOne(config: Config, w: Worker, poll: Poll)
    ensures Step(config, w, poll).received == w.received || Step(config, w, poll).received == w.received + 1
  {
    hide HandleCompletion, StopsAccepting;
  }

  // ----- draining ends

  /** The next poll reports that this message completed. */
  predicate Reports(poll: Poll, id: nat, policy: PanicPolicy) {
    poll.completed.Some? && poll.completed.value.0 == id && Tolerated(poll.completed.value.1, policy)
  }

  /** The polls report these messages, one after the other, each with a tolerated result. */
  predicate ReportsAll(polls: seq<Poll>, ids: seq<nat>, policy: PanicPolicy) {
    |polls| == |ids| && forall i | 0 <= i < |ids| :: Reports(polls[i], ids[i], policy)
  }

  ghost predicate Enumerates(ids: seq<nat>, s: set<nat>) {
    && (forall i | 0 <= i < |ids| :: ids[i] in s)
    && (forall id | id in s :: id in ids)
    && (forall i, j | 0 <= i < j < |ids| :: ids[i] != ids[j])
  }

  /** A draining worker returns normally as soon as everything in flight has completed with tolerated
      results, in any order. */
  lemma {:induction false} DrainReturns(config: Config, w: Worker, ids: seq<nat>, polls: seq<Poll>)
    requires Inv(config, w) && w.exit.None? && !w.accepting
    requires Enumerates(ids, w.inFlight) && ReportsAll(polls, ids, config.policy)
    ensures Ran(config, w, polls).exit == Some(Drained)
    decreases polls
  {
    hide Inv;
    DrainHasWork(config, w);
    if ids != [] {
      var id, t := ids[0], Step(config, w, polls[0]);
      StepKeeps(config, w, polls[0]);
      assert Reports(polls[0], id, config.policy);
      assert id in w.inFlight;
      assert t.inFlight == w.inFlight - {id};
      if t.inFlight == {} {
        ExitedStays(config, t, polls[1..]);
      } else {
        assert Enumerates(ids[1..], t.inFlight);
        DrainReturns(config, t, ids[1..], polls[1..]);
      }
    }
  }

  lemma DrainHasWork(config: Config, w: Worker)
    requires Inv(config, w) && w.exit.None? && !w.accepting
    ensures w.inFlight != {}
  {}
}
