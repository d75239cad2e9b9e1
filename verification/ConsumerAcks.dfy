/** Acknowledging consumer messages (nats-micro/src/runtime/consumer_worker.rs): progress while the handler
    works, then one answer; for one message and over whole runs of a consumer worker. */
module ConsumerAcks {
  import opened Text
  import JetStream
  import Workers

  const NANOS_PER_MILLI: nat := 1_000_000

  datatype AckKind = Progress | Ack | Nak(delay: Option<nat>) | Term

  /** An acknowledgement that was attempted, and whether it went through. */
  datatype Sent = Sent(kind: AckKind, delivered: bool)

  /** A handler returns an action or an error, or panics. */
  datatype Answer = Returned(result: Result<JetStream.Action, Str>) | Panicked

  /** What is ready at one turn of the loop: the handler's answer, the progress timer, or neither; and
      whether an acknowledgement sent at this turn goes through. */
  datatype Poll = Poll(answer: Option<Answer>, tick: bool, delivers: bool)

  /** One message being processed: the acknowledgements so far, the handler's answer, and how the processing
      completed. */
  datatype Processing = Processing(trace: seq<Sent>, answer: Option<Answer>, outcome: Option<Workers.Completion>)

  const FRESH := Processing([], None, None)

  /** A third of the ack wait, in nanoseconds. */
  function ProgressPeriod(ackWaitMs: nat): nat {
    ackWaitMs * NANOS_PER_MILLI / 3
  }

  /** A failing handler counts as a Nack. */
  function ActionOf(result: Result<JetStream.Action, Str>): JetStream.Action {
    match result
    case Ok(action) => action
    case Err(_) => JetStream.Nack
  }

  function AckOf(action: JetStream.Action): AckKind {
    match action
    case Ack => Ack
    case Nack => Nak(None)
    case NackAfter(delay) => Nak(Some(delay))
    case Term => Term
  }

  function Send(p: Processing, kind: AckKind, delivers: bool): Processing {
    p.(trace := p.trace + [Sent(kind, delivers)])
  }

  /** One turn: the handler's answer goes before the timer. */
  function Turn(ackWaitMs: nat, p: Processing, poll: Poll): Processing {
    if p.outcome.Some? then p
    else
      match poll.answer
      case Some(Panicked) => p.(answer := poll.answer, outcome := Some(Workers.Panicked))
      case Some(Returned(result)) =>
        Send(p, AckOf(ActionOf(result)), poll.delivers).(
          answer := poll.answer, outcome := Some(if poll.delivers then Workers.Succeeded else Workers.Failed))
      case None =>
        if !poll.tick || ProgressPeriod(ackWaitMs) == 0 then p
        else Send(p, Progress, poll.delivers).(outcome := if poll.delivers then None else Some(Workers.Failed))
  }

  function Turns(ackWaitMs: nat, p: Processing, polls: seq<Poll>): Processing
    decreases polls
  {
    if polls == [] then p else Turns(ackWaitMs, Turn(ackWaitMs, p, polls[0]), polls[1..])
  }

  lemma {:induction false} CompletedStays(ackWaitMs: nat, p: Processing, polls: seq<Poll>)
    ensures p.outcome.Some? ==> Turns(ackWaitMs, p, polls) == p
    decreases polls
  {
    if polls != [] && p.outcome.Some? {
      CompletedStays(ackWaitMs, p, polls[1..]);
    }
  }

  /** `process_consumer`, over the polls it lives to see. */
  method ProcessConsumer(ackWaitMs: nat, polls: seq<Poll>) returns (p: Processing)
    ensures p == Turns(ackWaitMs, FRESH, polls)
  {
    var period := ProgressPeriod(ackWaitMs);
    var trace: seq<Sent> := [];
    var i := 0;
    var result: Option<Answer> := None;
    while result.None?
      invariant i <= |polls|
      invariant result.None? ==>
                  Turns(ackWaitMs, Processing(trace, None, None), polls[i..]) == Turns(ackWaitMs, FRESH, polls)
      invariant result.Some? ==> i > 0 && polls[i - 1].answer == result
      invariant result.Some? ==>
                  Turns(ackWaitMs, Turn(ackWaitMs, Processing(trace, None, None), polls[i - 1]), polls[i..]) ==
                  Turns(ackWaitMs, FRESH, polls)
      decreases |polls| - i, result.None?
    {
      if i == |polls| {
        return Processing(trace, None, None);
      }
      var poll := polls[i];
      DropOne(polls, i);
      i := i + 1;
      CompletedStays(ackWaitMs, Turn(ackWaitMs, Processing(trace, None, None), poll), polls[i..]);
      if poll.answer.Some? {
        result := poll.answer;
      } else if poll.tick && period != 0 {
        trace := trace + [Sent(Progress, poll.delivers)];
        if !poll.delivers {
          return Processing(trace, None, Some(Workers.Failed));
        }
      }
    }
    CompletedStays(ackWaitMs, Turn(ackWaitMs, Processing(trace, None, None), polls[i - 1]), polls[i..]);
    match result.value {
      case Panicked =>
        return Processing(trace, result, Some(Workers.Panicked));
      case Returned(answer) =>
        var action := match answer { case Ok(action) => action case Err(_) => JetStream.Nack };
        var delivered := polls[i - 1].delivers;
        match action {
          case Ack => trace := trace + [Sent(Ack, delivered)];
          case Nack => trace := trace + [Sent(Nak(None), delivered)];
          case NackAfter(delay) => trace := trace + [Sent(Nak(Some(delay)), delivered)];
          case Term => trace := trace + [Sent(Term, delivered)];
        }
        return Processing(trace, result, Some(if delivered then Workers.Succeeded else Workers.Failed));
    }
  }

  // ----- the shape of every trace

  /** Progress is only sent when there is an ack wait to stretch. */
  lemma ProgressNeedsAckWait(ackWaitMs: nat)
    ensures ProgressPeriod(ackWaitMs) > 0 <==> ackWaitMs > 0
    ensures ProgressPeriod(ackWaitMs) * 3 <= ackWaitMs * NANOS_PER_MILLI
  {}

  /** An acknowledgement is sent at a turn exactly when the handler answers with a result, or the timer fires
      while it works and there is an ack wait to stretch. */
  lemma SendsExactlyWhenDue(ackWaitMs: nat, p: Processing, poll: Poll)
    ensures Turn(ackWaitMs, p, poll).trace != p.trace <==>
            p.outcome.None? && if poll.answer.Some? then poll.answer.value.Returned? else poll.tick && ackWaitMs > 0
  {}

  /** The handler keeps working: it has not answered, and every acknowledgement goes through. */
  ghost predicate Working(polls: seq<Poll>) {
    forall i | 0 <= i < |polls| :: polls[i].answer.None? && polls[i].delivers
  }

  function Ticks(polls: seq<Poll>): nat {
    if polls == [] then 0 else (if polls[0].tick then 1 else 0) + Ticks(polls[1..])
  }

  /** While the handler works, exactly one progress is sent for each tick of the timer, and none without an ack
      wait; its answer then adds exactly one acknowledgement if it is a result, and none if it is a panic. */
  lemma {:induction false} OneProgressPerTick(ackWaitMs: nat, p: Processing, polls: seq<Poll>, last: Poll)
    requires p.outcome.None? && Working(polls) && last.answer.Some?
    ensures
      var working := Turns(ackWaitMs, p, polls);
      && working.outcome.None?
      && |working.trace| == |p.trace| + (if ackWaitMs > 0 then Ticks(polls) else 0)
      && var answered := Turns(ackWaitMs, p, polls + [last]);
         match last.answer.value
         case Panicked => answered == working.(answer := last.answer, outcome := Some(Workers.Panicked))
         case Returned(result) =>
           && answered.answer == last.answer
           && answered.outcome == Some(if last.delivers then Workers.Succeeded else Workers.Failed)
           && |answered.trace| == |working.trace| + 1 && working.trace < answered.trace
           && CallsFor(result, answered.trace[|working.trace|].kind)
           && answered.trace[|working.trace|].delivered == last.delivers
    decreases polls
  {
    if polls == [] {
      assert polls + [last] == [last] && [last][1..] == [];
      assert Turns(ackWaitMs, p, [last]) == Turn(ackWaitMs, p, last);
      SendsExactlyWhenDue(ackWaitMs, p, last);
    } else {
      SendsExactlyWhenDue(ackWaitMs, p, polls[0]);
      assert (polls + [last])[0] == polls[0] && (polls + [last])[1..] == polls[1..] + [last];
      OneProgressPerTick(ackWaitMs, Turn(ackWaitMs, p, polls[0]), polls[1..], last);
    }
  }

  /** All of these are progress, and went through. */
  ghost predicate OnlyProgress(trace: seq<Sent>) {
    forall i | 0 <= i < |trace| :: trace[i] == Sent(Progress, true)
  }

  /** Delivered progress and then at most one more acknowledgement, which tells how the processing ended:
      none while it goes on or after a panic, an undelivered progress or an undelivered answer after a
      failure, and the answer's own acknowledgement, delivered, after a success. */
  ghost predicate WellAcked(p: Processing) {
    match p.outcome
    case None => OnlyProgress(p.trace) && p.answer == None
    case Some(Panicked) => OnlyProgress(p.trace) && p.answer == Some(Panicked)
    case Some(Succeeded) => EndsWithAnswer(p, true)
    case Some(Failed) =>
      EndsWithAnswer(p, false)
      || (p.trace != [] && p.answer == None && OnlyProgress(p.trace[..|p.trace| - 1])
          && p.trace[|p.trace| - 1] == Sent(Progress, false))
  }

  /** The acknowledgement that a handler's result calls for: a negative one without a delay for an error. */
  predicate CallsFor(result: Result<JetStream.Action, Str>, kind: AckKind) {
    match kind
    case Ack => result == Ok(JetStream.Ack)
    case Nak(None) => result == Ok(JetStream.Nack) || result.Err?
    case Nak(Some(delay)) => result == Ok(JetStream.NackAfter(delay))
    case Term => result == Ok(JetStream.Term)
    case Progress => false
  }

  ghost predicate EndsWithAnswer(p: Processing, delivered: bool) {
    && p.answer.Some? && p.answer.value.Returned? && p.trace != []
    && OnlyProgress(p.trace[..|p.trace| - 1])
    && var last := p.trace[|p.trace| - 1];
       CallsFor(p.answer.value.result, last.kind) && last.delivered == delivered
  }

  lemma TurnWellAcked(ackWaitMs: nat, p: Processing, poll: Poll)
    requires WellAcked(p)
    ensures WellAcked(Turn(ackWaitMs, p, poll))
  {
    var t := Turn(ackWaitMs, p, poll);
    if t.trace != p.trace {
      assert t.trace[..|t.trace| - 1] == p.trace;
    }
  }

  lemma {:induction false} TurnsWellAcked(ackWaitMs: nat, p: Processing, polls: seq<Poll>)
    requires WellAcked(p)
    ensures WellAcked(Turns(ackWaitMs, p, polls))
    decreases polls
  {
    if polls != [] {
      TurnWellAcked(ackWaitMs, p, polls[0]);
      TurnsWellAcked(ackWaitMs, Turn(ackWaitMs, p, polls[0]), polls[1..]);
    }
  }

  /** How many of the acknowledgements settle the message. */
  function Terminals(trace: seq<Sent>): nat {
    if trace == [] then 0 else Terminals(trace[..|trace| - 1]) + if trace[|trace| - 1].kind.Progress? then 0 else 1
  }

  lemma {:induction false} ProgressIsNotTerminal(trace: seq<Sent>)
    requires OnlyProgress(trace)
    ensures Terminals(trace) == 0
  {
    if trace != [] {
      ProgressIsNotTerminal(trace[..|trace| - 1]);
    }
  }

  /** At most one acknowledgement settles the message, it is the last one, and a successful processing has
      exactly one. */
  lemma AtMostOneTerminal(p: Processing)
    requires WellAcked(p)
    ensures Terminals(p.trace) <= 1
    ensures forall i | 0 <= i < |p.trace| && !p.trace[i].kind.Progress? :: i == |p.trace| - 1
    ensures p.outcome == Some(Workers.Succeeded) ==> Terminals(p.trace) == 1
    ensures Terminals(p.trace) == 1 ==>
              EndsWithAnswer(p, true) || EndsWithAnswer(p, false)
  {
    if p.trace != [] {
      var front := p.trace[..|p.trace| - 1];
      assert OnlyProgress(front);
      ProgressIsNotTerminal(front);
      assert forall i | 0 <= i < |front| :: p.trace[i] == front[i];
    }
  }

  // ----- whole runs of a consumer worker

  /** A consumer worker, and the processing of each message it received. */
  datatype State = State(worker: Workers.Worker, processing: map<nat, Processing>)

  /** The worker's loop takes an iteration, or a message in flight is processed a little further. */
  datatype Event = Iterate(ready: Workers.Poll) | Process(id: nat, poll: Poll)

  function Initial(config: Workers.Config): State {
    State(Workers.Start(config), map[])
  }

  /** A completion that the loop sees is the outcome of that message's processing. */
  predicate Honest(s: State, poll: Workers.Poll) {
    poll.completed.Some? ==>
      var (id, completion) := poll.completed.value;
      id in s.processing && s.processing[id].outcome == Some(completion)
  }

  predicate Possible(s: State, event: Event) {
    match event
    case Iterate(poll) => Honest(s, poll)
    case Process(id, _) => s.worker.exit.None? && id in s.worker.inFlight && id in s.processing
  }

  /** The state after an event; one that cannot happen changes nothing. */
  function Next(config: Workers.Config, ackWaitMs: nat, s: State, event: Event): State {
    if !Possible(s, event) then s
    else
      match event
      case Iterate(poll) =>
        var worker := Workers.Step(config, s.worker, poll);
        State(worker, if worker.received > s.worker.received then s.processing[s.worker.received := FRESH] else s.processing)
      case Process(id, poll) => s.(processing := s.processing[id := Turn(ackWaitMs, s.processing[id], poll)])
  }

  function Run(config: Workers.Config, ackWaitMs: nat, s: State, events: seq<Event>): State
    decreases events
  {
    if events == [] then s else Run(config, ackWaitMs, Next(config, ackWaitMs, s, events[0]), events[1..])
  }

  /** Every received message has a processing, well acknowledged, and a finished one completed with the
      outcome of its processing. */
  ghost predicate Tracked(s: State) {
    && (forall id: nat :: id in s.processing <==> id < s.worker.received)
    && (forall id | id in s.processing :: WellAcked(s.processing[id]))
    && (forall id | id in s.worker.finished :: id in s.processing && s.processing[id].outcome == Some(s.worker.finished[id]))
  }

  ghost predicate Inv(config: Workers.Config, s: State) {
    Workers.Inv(config, s.worker) && Tracked(s)
  }

  /** What a step of the worker does to the messages it knows. */
  lemma StepEffect(config: Workers.Config, w: Workers.Worker, poll: Workers.Poll)
    ensures
      var t := Workers.Step(config, w, poll);
      && (t.received == w.received || t.received == w.received + 1)
      && forall id | id in t.finished ::
           (id in w.finished && t.finished[id] == w.finished[id])
           || (Workers.Completes(w, poll) && poll.completed.value == (id, t.finished[id]))
  {}

  lemma IterateKeeps(config: Workers.Config, ackWaitMs: nat, s: State, poll: Workers.Poll)
    requires Inv(config, s)
    ensures Inv(config, Next(config, ackWaitMs, s, Iterate(poll)))
  {
    hide Workers.Inv, Workers.Step, WellAcked;
    Workers.StepKeeps(config, s.worker, poll);
    StepEffect(config, s.worker, poll);
    FreshIsWellAcked();
  }

  lemma FreshIsWellAcked()
    ensures WellAcked(FRESH)
  {}

  lemma FinishedIsNotInFlight(config: Workers.Config, w: Workers.Worker)
    requires Workers.Inv(config, w)
    ensures w.inFlight !! w.finished.Keys
  {}

  lemma ProcessKeeps(config: Workers.Config, ackWaitMs: nat, s: State, id: nat, poll: Poll)
    requires Inv(config, s)
    ensures Inv(config, Next(config, ackWaitMs, s, Process(id, poll)))
  {
    if Possible(s, Process(id, poll)) {
      FinishedIsNotInFlight(config, s.worker);
      hide Workers.Inv, WellAcked, Turn;
      TurnWellAcked(ackWaitMs, s.processing[id], poll);
    }
  }

  lemma {:induction false} RunKeeps(config: Workers.Config, ackWaitMs: nat, s: State, events: seq<Event>)
    requires Inv(config, s)
    ensures Inv(config, Run(config, ackWaitMs, s, events))
    decreases events
  {
    hide Inv, Next;
    if events != [] {
      match events[0] {
        case Iterate(ready) => IterateKeeps(config, ackWaitMs, s, ready);
        case Process(id, poll) => ProcessKeeps(config, ackWaitMs, s, id, poll);
      }
      RunKeeps(config, ackWaitMs, Next(config, ackWaitMs, s, events[0]), events[1..]);
    }
  }

  /** How a message that finished in the worker was acknowledged. */
  ghost predicate Answered(p: Processing, completion: Workers.Completion) {
    match completion
    case Succeeded => EndsWithAnswer(p, true) && Terminals(p.trace) == 1
    case Failed => p.trace != [] && !p.trace[|p.trace| - 1].delivered
    case Panicked => OnlyProgress(p.trace)
  }

  lemma FinishedIsAnswered(s: State, id: nat)
    requires Tracked(s) && id in s.worker.finished
    ensures id in s.processing && Answered(s.processing[id], s.worker.finished[id])
  {
    AtMostOneTerminal(s.processing[id]);
  }

  /** In every run of a consumer worker each message's trace is delivered progress followed by at most one
      more acknowledgement, and at most one acknowledgement settles the message. Each finished message whose
      handler did not panic and whose acknowledgements went through has exactly one that settles it, the one
      that the handler's action calls for, a handler error calling for a Nak. A worker that returned normally
      has finished every message it received, and none of them for want of a delivered acknowledgement. */
  lemma {:induction false} AcksOverRuns(config: Workers.Config, ackWaitMs: nat, events: seq<Event>)
    ensures
      var s := Run(config, ackWaitMs, Initial(config), events);
      && (forall id: nat | id < s.worker.received ::
            id in s.processing && WellAcked(s.processing[id]) && Terminals(s.processing[id].trace) <= 1)
      && (forall id | id in s.worker.finished :: id in s.processing && Answered(s.processing[id], s.worker.finished[id]))
      && (s.worker.exit == Some(Workers.Drained) ==>
            forall id: nat | id < s.worker.received :: id in s.worker.finished && !s.worker.finished[id].Failed?)
  {
    hide Workers.Start, Run, Terminals, WellAcked, Answered, Workers.Inv;
    Workers.StartKeeps(config);
    StartIsTracked(config);
    RunKeeps(config, ackWaitMs, Initial(config), events);
    var s := Run(config, ackWaitMs, Initial(config), events);
    forall id | id in s.processing
      ensures Terminals(s.processing[id].trace) <= 1
    {
      AtMostOneTerminal(s.processing[id]);
    }
    forall id | id in s.worker.finished
      ensures id in s.processing && Answered(s.processing[id], s.worker.finished[id])
    {
      FinishedIsAnswered(s, id);
    }
    if s.worker.exit == Some(Workers.Drained) {
      DrainedFinished(config, s.worker);
    }
  }

  lemma StartIsTracked(config: Workers.Config)
    ensures Tracked(Initial(config))
  {}

  lemma DrainedFinished(config: Workers.Config, w: Workers.Worker)
    requires Workers.Inv(config, w) && w.exit == Some(Workers.Drained)
    ensures forall id: nat | id < w.received :: id in w.finished && Workers.Tolerated(w.finished[id], config.policy)
  {
    assert forall id: nat | id < w.received :: id in w.inFlight + w.finished.Keys;
  }
}
