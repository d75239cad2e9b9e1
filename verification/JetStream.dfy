/** The deterministic JetStream simulator (nats-micro-testing/src/jetstream.rs): its state, the effect of
    every operation on that state, and the class whose methods have exactly those effects. */
module JetStream {
  import opened Text
  import opened Subjects

  function SaturatingAdd(a: nat, b: nat): nat {
    if a + b <= MAX_DURATION then a + b else MAX_DURATION
  }

  type Headers = map<Str, seq<Str>>

  /** A subject, payload and headers: what is published, delivered and captured. */
  datatype Message = Message(subject: Str, payload: Str, headers: Option<Headers>)

  datatype Stream = Stream(name: Str, subjects: seq<Str>)

  datatype Consumer = Consumer(
    stream: Str, durable: Str, filterSubject: Str, ackWait: nat, maxDeliver: nat, backoff: seq<nat>)

  /** A queued delivery. `id` numbers the fan-outs in the order they were queued; it exists only to tell
      two deliveries with the same contents apart. */
  datatype Scheduled = Scheduled(id: nat, durable: Str, message: Message, attempt: nat, dueAt: nat)

  datatype Action = Ack | Nack | NackAfter(delay: nat) | Term

  datatype SimulatorError = UnknownStream(stream: Str) | DuplicateDurable(durable: Str) | NoStream(subject: Str)

  /** What became of a fan-out: the copy of one published message made for one durable. */
  datatype Status = Pending | Held | Acked | Terminated | Exhausted

  datatype FanOut = FanOut(durable: Str, message: Message, attempt: nat, status: Status)

  datatype HistoryItem =
    | Popped(id: nat, attempt: nat, at: nat)
    | Rescheduled(id: nat, attempt: nat, at: nat, delay: nat)

  datatype Letter = Letter(id: nat, event: Message)

  /** The simulator's fields, together with the bookkeeping the proofs speak of: the ledger of all
      fan-outs ever queued, the history of pops and retries, and the dead letters recorded so far. */
  datatype State = State(
    streams: seq<Stream>,
    deadLetters: map<Str, Str>,
    consumers: seq<Consumer>,  // the values of a map keyed by durable, in key order
    pending: seq<Scheduled>,
    deliveries: map<Str, nat>,
    timeoutNext: seq<Str>,
    now: nat,
    ledger: seq<FanOut>,
    history: seq<HistoryItem>,
    letters: seq<Letter>)

  function Initial(streams: seq<Stream>, deadLetters: map<Str, Str>): State {
    State(streams, deadLetters, [], [], map[], [], 0, [], [], [])
  }

  // ----- looking up consumers

  function Position(consumers: seq<Consumer>, durable: Str): (i: nat)
    ensures i <= |consumers|
    ensures i < |consumers| ==> consumers[i].durable == durable
    ensures forall j | 0 <= j < i :: consumers[j].durable != durable
  {
    if consumers == [] || consumers[0].durable == durable then 0 else 1 + Position(consumers[1..], durable)
  }

  predicate Registered(consumers: seq<Consumer>, durable: Str) {
    Position(consumers, durable) < |consumers|
  }

  function Find(consumers: seq<Consumer>, durable: Str): (c: Consumer)
    requires Registered(consumers, durable)
    ensures c in consumers && c.durable == durable
  {
    consumers[Position(consumers, durable)]
  }

  /** Inserting into a map keeps its values in key order. */
  function Insert(consumers: seq<Consumer>, c: Consumer): seq<Consumer> {
    if consumers == [] || StrLess(c.durable, consumers[0].durable) then [c] + consumers
    else [consumers[0]] + Insert(consumers[1..], c)
  }

  // ----- the effect of each operation

  ghost predicate Accepts(pattern: Str, subject: Str) {
    Matches(Split(pattern), Split(subject))
  }

  ghost predicate StreamAccepts(stream: Stream, subject: Str) {
    exists i | 0 <= i < |stream.subjects| :: Accepts(stream.subjects[i], subject)
  }

  ghost predicate SomeStreamAccepts(streams: seq<Stream>, subject: Str) {
    exists i | 0 <= i < |streams| :: StreamAccepts(streams[i], subject)
  }

  /** A stream of this name accepts the subject. */
  ghost predicate Captures(name: Str, streams: seq<Stream>, subject: Str) {
    exists i | 0 <= i < |streams| :: streams[i].name == name && StreamAccepts(streams[i], subject)
  }

  lemma SomeAcceptsNext(streams: seq<Stream>, i: nat, subject: Str)
    requires i < |streams|
    ensures SomeStreamAccepts(streams[..i + 1], subject) <==>
            SomeStreamAccepts(streams[..i], subject) || StreamAccepts(streams[i], subject)
  {
    hide StreamAccepts;
    var next := streams[..i + 1];
    assert next[i] == streams[i] && forall j | 0 <= j < i :: next[j] == streams[..i][j];
    if SomeStreamAccepts(streams[..i], subject) {
      var j :| 0 <= j < i && StreamAccepts(streams[..i][j], subject);
      assert StreamAccepts(next[j], subject);
    }
    if StreamAccepts(streams[i], subject) {
      assert StreamAccepts(next[i], subject);
    }
  }

  lemma CapturesNext(name: Str, streams: seq<Stream>, i: nat, subject: Str)
    requires i < |streams|
    ensures Captures(name, streams[..i + 1], subject) <==>
            Captures(name, streams[..i], subject) || (streams[i].name == name && StreamAccepts(streams[i], subject))
  {
    hide StreamAccepts;
    var next := streams[..i + 1];
    assert next[i] == streams[i] && forall j | 0 <= j < i :: next[j] == streams[..i][j];
    if Captures(name, streams[..i], subject) {
      var j :| 0 <= j < i && streams[..i][j].name == name && StreamAccepts(streams[..i][j], subject);
      assert next[j].name == name && StreamAccepts(next[j], subject);
    }
    if streams[i].name == name && StreamAccepts(streams[i], subject) {
      assert next[i].name == name && StreamAccepts(next[i], subject);
    }
  }

  lemma NoStreamsCapture(subject: Str)
    ensures !SomeStreamAccepts([], subject) && forall name :: !Captures(name, [], subject)
  {}

  /** The consumer's stream captures the subject, and its own filter accepts it too. */
  ghost predicate Wants(c: Consumer, streams: seq<Stream>, subject: Str) {
    Captures(c.stream, streams, subject) && Accepts(c.filterSubject, subject)
  }

  /** The durables a subject fans out to, in key order. */
  ghost function FanOutTo(consumers: seq<Consumer>, streams: seq<Stream>, subject: Str): seq<Str> {
    if consumers == [] then []
    else (if Wants(consumers[0], streams, subject) then [consumers[0].durable] else [])
         + FanOutTo(consumers[1..], streams, subject)
  }

  lemma FanOutNext(consumers: seq<Consumer>, i: nat, streams: seq<Stream>, subject: Str)
    requires i < |consumers|
    ensures FanOutTo(consumers[i..], streams, subject) ==
            (if Wants(consumers[i], streams, subject) then [consumers[i].durable] else [])
            + FanOutTo(consumers[i + 1..], streams, subject)
  {
    DropOne(consumers, i);
  }

  lemma FanOutEnds(consumers: seq<Consumer>, streams: seq<Stream>, subject: Str)
    ensures FanOutTo(consumers[|consumers|..], streams, subject) == []
  {}

  function Enqueue(s: State, durable: Str, message: Message): State {
    s.(pending := s.pending + [Scheduled(|s.ledger|, durable, message, 1, s.now)],
       ledger := s.ledger + [FanOut(durable, message, 1, Pending)])
  }

  function EnqueueAll(s: State, durables: seq<Str>, message: Message): State
    decreases durables
  {
    if durables == [] then s else EnqueueAll(Enqueue(s, durables[0], message), durables[1..], message)
  }

  ghost function Published(s: State, message: Message): Result<State, SimulatorError> {
    if !SomeStreamAccepts(s.streams, message.subject) then Err(NoStream(message.subject))
    else Ok(EnqueueAll(s, FanOutTo(s.consumers, s.streams, message.subject), message))
  }

  function RegisteredWith(s: State, c: Consumer): Result<State, SimulatorError> {
    if !exists i | 0 <= i < |s.streams| :: s.streams[i].name == c.stream then Err(UnknownStream(c.stream))
    else if Registered(s.consumers, c.durable) then Err(DuplicateDurable(c.durable))
    else Ok(s.(consumers := Insert(s.consumers, c)))
  }

  /** The first queued delivery that is due, or the length of the queue. */
  function FirstDue(pending: seq<Scheduled>, now: nat): (i: nat)
    ensures i <= |pending|
    ensures i < |pending| ==> pending[i].dueAt <= now
    ensures forall j | 0 <= j < i :: pending[j].dueAt > now
  {
    if pending == [] || pending[0].dueAt <= now then 0 else 1 + FirstDue(pending[1..], now)
  }

  function Deliveries(s: State, durable: Str): nat {
    if durable in s.deliveries then s.deliveries[durable] else 0
  }

  /** The fan-out of a delivery, in some status. */
  function Entry(d: Scheduled, status: Status): FanOut {
    FanOut(d.durable, d.message, d.attempt, status)
  }

  /** Every queued delivery has an entry in the ledger. */
  ghost predicate Numbered(s: State) {
    forall i | 0 <= i < |s.pending| :: s.pending[i].id < |s.ledger|
  }

  function Pop(s: State, i: nat): State
    requires i < |s.pending| && s.pending[i].id < |s.ledger|
  {
    var d := s.pending[i];
    s.(pending := s.pending[..i] + s.pending[i + 1..],
       deliveries := s.deliveries[d.durable := Deliveries(s, d.durable) + 1],
       ledger := s.ledger[d.id := Entry(d, Held)],
       history := s.history + [Popped(d.id, d.attempt, s.now)])
  }

  /** The delivery was popped and not completed yet. */
  predicate Holds(s: State, d: Scheduled) {
    d.id < |s.ledger| && s.ledger[d.id] == Entry(d, Held)
  }

  function Settle(s: State, d: Scheduled, status: Status): State
    requires d.id < |s.ledger|
  {
    s.(ledger := s.ledger[d.id := Entry(d, status)])
  }

  function Again(s: State, d: Scheduled, delay: nat): Scheduled {
    d.(attempt := d.attempt + 1, dueAt := SaturatingAdd(s.now, delay))
  }

  function Reschedule(s: State, d: Scheduled, delay: nat): State
    requires d.id < |s.ledger|
  {
    var next := Again(s, d, delay);
    s.(pending := s.pending + [next],
       ledger := s.ledger[d.id := Entry(next, Pending)],
       history := s.history + [Rescheduled(d.id, next.attempt, s.now, delay)])
  }

  function Bury(s: State, d: Scheduled): State
    requires d.id < |s.ledger|
  {
    var s1 := Settle(s, d, Exhausted);
    if d.durable in s.deadLetters then
      s1.(letters := s.letters + [Letter(d.id, d.message.(subject := s.deadLetters[d.durable]))])
    else s1
  }

  function Retried(s: State, d: Scheduled, delay: nat): State
    requires Holds(s, d) && Registered(s.consumers, d.durable)
  {
    if d.attempt >= Find(s.consumers, d.durable).maxDeliver then Bury(s, d) else Reschedule(s, d, delay)
  }

  function Completed(s: State, d: Scheduled, action: Action): State
    requires Holds(s, d) && Registered(s.consumers, d.durable)
  {
    match action
    case Ack => Settle(s, d, Acked)
    case Term => Settle(s, d, Terminated)
    case Nack => Retried(s, d, 0)
    case NackAfter(delay) => Retried(s, d, delay)
  }

  /** The redelivery delay after a missed acknowledgement: the attempt's backoff entry, or the ack wait. */
  function TimeoutDelay(c: Consumer, attempt: nat): nat {
    var index := if attempt == 0 then 0 else attempt - 1;
    if index < |c.backoff| then c.backoff[index] else c.ackWait
  }

  function TimedOut(s: State, d: Scheduled): State
    requires Holds(s, d) && Registered(s.consumers, d.durable)
  {
    Retried(s, d, TimeoutDelay(Find(s.consumers, d.durable), d.attempt))
  }

  /** The state after taking the durable's oldest planned timeout, if it has one. */
  function TimeoutConsumed(s: State, durable: Str): (State, bool) {
    var i := IndexOf(s.timeoutNext, durable);
    if i == |s.timeoutNext| then (s, false)
    else (s.(timeoutNext := s.timeoutNext[..i] + s.timeoutNext[i + 1..]), true)
  }

  /** The captured events that an operation added. */
  function NewEvents(before: State, after: State): seq<Message>
    requires |before.letters| <= |after.letters|
  {
    Events(after.letters[|before.letters|..])
  }

  function Events(letters: seq<Letter>): (events: seq<Message>)
    ensures |events| == |letters|
    ensures forall i | 0 <= i < |letters| :: events[i] == letters[i].event
  {
    seq(|letters|, i requires 0 <= i < |letters| => letters[i].event)
  }

  // ----- the simulator itself

  /** `EventLog` (nats-micro-testing/src/lib.rs), shared between the simulator and the harness. */
  class EventLog {
    var entries: seq<Message>

    constructor ()
      ensures entries == []
    {
      entries := [];
    }

    method Record(event: Message)
      modifies this
      ensures entries == old(entries) + [event]
    {
      entries := entries + [event];
    }
  }

  class JetStreamSimulator {
    const streams: seq<Stream>
    const deadLetters: map<Str, Str>
    const events: EventLog
    var consumers: seq<Consumer>
    var pending: seq<Scheduled>
    var deliveries: map<Str, nat>
    var timeoutNext: seq<Str>
    var now: nat
    var nextId: nat
    ghost var ledger: seq<FanOut>
    ghost var history: seq<HistoryItem>
    ghost var letters: seq<Letter>

    ghost function View(): State
      reads this
    {
      State(streams, deadLetters, consumers, pending, deliveries, timeoutNext, now, ledger, history, letters)
    }

    ghost predicate Valid()
      reads this
    {
      nextId == |ledger|
    }

    constructor (streams: seq<Stream>, deadLetters: map<Str, Str>, events: EventLog)
      ensures Valid() && View() == Initial(streams, deadLetters) && this.events == events
    {
      this.streams, this.deadLetters, this.events := streams, deadLetters, events;
      consumers, pending, deliveries, timeoutNext, now, nextId := [], [], map[], [], 0, 0;
      ledger, history, letters := [], [], [];
    }

    /** `register_consumer`. */
    method RegisterConsumer(c: Consumer) returns (r: Result<(), SimulatorError>)
      requires Valid()
      modifies this
      ensures Valid()
      ensures match RegisteredWith(old(View()), c)
              case Ok(after) => r == Ok(()) && View() == after
              case Err(error) => r == Err(error) && View() == old(View())
    {
      var declared := false;
      for i := 0 to |streams|
        invariant declared <==> exists j | 0 <= j < i :: streams[j].name == c.stream
      {
        if streams[i].name == c.stream {
          declared := true;
        }
      }
      if !declared {
        return Err(UnknownStream(c.stream));
      }
      if Registered(consumers, c.durable) {
        return Err(DuplicateDurable(c.durable));
      }
      consumers := Insert(consumers, c);
      return Ok(());
    }

    /** Whether one of a stream's patterns matches the subject. */
    method AnyPatternMatches(stream: Stream, subject: Str) returns (accepts: bool)
      ensures accepts <==> StreamAccepts(stream, subject)
    {
      hide Matches, Split;
      accepts := false;
      for k := 0 to |stream.subjects|
        invariant accepts <==> exists j | 0 <= j < k :: Accepts(stream.subjects[j], subject)
      {
        var matched := SubjectMatches(stream.subjects[k], subject);
        accepts := accepts || matched;
      }
    }

    /** The names of the declared streams that accept a subject. */
    method MatchingStreams(subject: Str) returns (names: seq<Str>)
      ensures names == [] <==> !SomeStreamAccepts(streams, subject)
      ensures forall name :: name in names <==> Captures(name, streams, subject)
    {
      hide StreamAccepts, SomeStreamAccepts, Captures;
      names := [];
      NoStreamsCapture(subject);
      for i := 0 to |streams|
        invariant names == [] <==> !SomeStreamAccepts(streams[..i], subject)
        invariant forall name :: name in names <==> Captures(name, streams[..i], subject)
      {
        SomeAcceptsNext(streams, i, subject);
        var accepts := AnyPatternMatches(streams[i], subject);
        ghost var before := names;
        if accepts {
          names := names + [streams[i].name];
        }
        forall name
          ensures name in names <==> Captures(name, streams[..i + 1], subject)
        {
          CapturesNext(name, streams, i, subject);
          assert name in names <==> name in before || (accepts && name == streams[i].name);
        }
      }
      assert streams[..|streams|] == streams;
    }

    /** The durables whose stream is among the matching ones and whose filter accepts the subject. */
    method MatchingDurables(names: seq<Str>, subject: Str) returns (durables: seq<Str>)
      requires forall name :: name in names <==> Captures(name, streams, subject)
      ensures durables == FanOutTo(consumers, streams, subject)
    {
      hide FanOutTo, Captures, Matches, Split;
      durables := [];
      assert consumers[0..] == consumers;
      for i := 0 to |consumers|
        invariant unchanged(this)
        invariant durables + FanOutTo(consumers[i..], streams, subject) == FanOutTo(consumers, streams, subject)
      {
        var c := consumers[i];
        var matched := SubjectMatches(c.filterSubject, subject);
        FanOutNext(consumers, i, streams, subject);
        Regroup(durables, if Wants(c, streams, subject) then [c.durable] else [], FanOutTo(consumers[i + 1..], streams, subject));
        if c.stream in names && matched {
          durables := durables + [c.durable];
        }
      }
      FanOutEnds(consumers, streams, subject);
    }

    /** `publish`: one delivery for each consumer that wants the subject, due at once. */
    method Publish(message: Message) returns (r: Result<(), SimulatorError>)
      requires Valid()
      modifies this
      ensures Valid()
      ensures match Published(old(View()), message)
              case Ok(after) => r == Ok(()) && View() == after
              case Err(error) => r == Err(error) && View() == old(View())
    {
      var names := MatchingStreams(message.subject);
      if names == [] {
        return Err(NoStream(message.subject));
      }
      var durables := MatchingDurables(names, message.subject);
      ghost var before := View();
      for i := 0 to |durables|
        invariant Valid()
        invariant EnqueueAll(View(), durables[i..], message) == EnqueueAll(before, durables, message)
      {
        ghost var s := View();
        pending := pending + [Scheduled(nextId, durables[i], message, 1, now)];
        nextId := nextId + 1;
        ledger := ledger + [FanOut(durables[i], message, 1, Pending)];
        assert View() == Enqueue(s, durables[i], message);
        assert durables[i..][0] == durables[i] && durables[i..][1..] == durables[i + 1..];
      }
      assert durables[|durables|..] == [];
      return Ok(());
    }

    /** `next_due`: takes the first delivery that is due out of the queue and counts it. */
    method NextDue() returns (r: Option<Scheduled>)
      requires Numbered(View())
      requires Valid()
      modifies this
      ensures Valid()
      ensures
        var s := old(View());
        var i := FirstDue(s.pending, s.now);
        if i == |s.pending| then r == None && View() == s
        else r == Some(s.pending[i]) && View() == Pop(s, i)
    {
      var index := 0;
      while index < |pending| && pending[index].dueAt > now
        invariant 0 <= index <= |pending|
        invariant forall j | 0 <= j < index :: pending[j].dueAt > now
      {
        index := index + 1;
      }
      assert index == FirstDue(pending, now);
      if index == |pending| {
        return None;
      }
      var d := pending[index];
      pending := pending[..index] + pending[index + 1..];
      deliveries := deliveries[d.durable := (if d.durable in deliveries then deliveries[d.durable] else 0) + 1];
      ledger := ledger[d.id := Entry(d, Held)];
      history := history + [Popped(d.id, d.attempt, now)];
      return Some(d);
    }

    /** `complete`, for a delivery that was popped and not completed before. */
    method Complete(d: Scheduled, action: Action)
      requires Holds(View(), d) && Registered(consumers, d.durable)
      requires Valid()
      modifies this, events
      ensures Valid()
      ensures View() == Completed(old(View()), d, action)
      ensures events.entries == old(events.entries) + NewEvents(old(View()), View())
    {
      match action {
        case Ack => ledger := ledger[d.id := Entry(d, Acked)];
        case Term => ledger := ledger[d.id := Entry(d, Terminated)];
        case Nack => Retry(d, 0);
        case NackAfter(delay) => Retry(d, delay);
      }
    }

    /** `complete_timeout`. */
    method CompleteTimeout(d: Scheduled)
      requires Holds(View(), d) && Registered(consumers, d.durable)
      requires Valid()
      modifies this, events
      ensures Valid()
      ensures View() == TimedOut(old(View()), d)
      ensures events.entries == old(events.entries) + NewEvents(old(View()), View())
    {
      var consumer := Find(consumers, d.durable);
      var backoffIndex := if d.attempt == 0 then 0 else d.attempt - 1;
      var delay := if backoffIndex < |consumer.backoff| then consumer.backoff[backoffIndex] else consumer.ackWait;
      Retry(d, delay);
    }

    /** `retry`: queues the next attempt, or records a dead letter once the attempts are used up. */
    method Retry(d: Scheduled, delay: nat)
      requires Holds(View(), d) && Registered(consumers, d.durable)
      requires Valid()
      modifies this, events
      ensures Valid()
      ensures View() == Retried(old(View()), d, delay)
      ensures events.entries == old(events.entries) + NewEvents(old(View()), View())
    {
      var consumer := Find(consumers, d.durable);
      if d.attempt >= consumer.maxDeliver {
        ledger := ledger[d.id := Entry(d, Exhausted)];
        if d.durable in deadLetters {
          var event := d.message.(subject := deadLetters[d.durable]);
          events.Record(event);
          letters := letters + [Letter(d.id, event)];
        }
        return;
      }
      var next := d.(attempt := d.attempt + 1, dueAt := SaturatingAdd(now, delay));
      ledger := ledger[d.id := Entry(next, Pending)];
      history := history + [Rescheduled(d.id, next.attempt, now, delay)];
      pending := pending + [next];
    }

    /** `timeout_next`: plans that the durable's next delivery misses its acknowledgement. */
    method TimeoutNext(durable: Str)
      requires Valid()
      modifies this
      ensures Valid()
      ensures View() == old(View()).(timeoutNext := old(timeoutNext) + [durable])
    {
      timeoutNext := timeoutNext + [durable];
    }

    /** `consume_timeout`. */
    method ConsumeTimeout(durable: Str) returns (planned: bool)
      requires Valid()
      modifies this
      ensures Valid()
      ensures (View(), planned) == TimeoutConsumed(old(View()), durable)
    {
      var index := 0;
      while index < |timeoutNext| && timeoutNext[index] != durable
        invariant 0 <= index <= |timeoutNext|
        invariant forall j | 0 <= j < index :: timeoutNext[j] != durable
      {
        index := index + 1;
      }
      assert index == IndexOf(timeoutNext, durable);
      if index == |timeoutNext| {
        return false;
      }
      timeoutNext := timeoutNext[..index] + timeoutNext[index + 1..];
      return true;
    }

    /** `advance_internal`, behind the manual clock. */
    method Advance(duration: nat)
      requires Valid()
      modifies this
      ensures Valid()
      ensures View() == old(View()).(now := SaturatingAdd(old(now), duration))
    {
      now := SaturatingAdd(now, duration);
    }
  }
}
