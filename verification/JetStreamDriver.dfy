/** The test harness that drives the simulator: registering the consumers of a service list and
    `run_until_idle` (nats-micro/src/testing.rs). */
module JetStreamDriver {
  import opened Text
  import opened JetStream
  import opened JetStreamLedger

  const NANOS_PER_MILLI: nat := 1_000_000
  const U64_MAX: nat := 0xFFFF_FFFF_FFFF_FFFF

  /** `ConsumerSpec`: the part of a declaration the simulator uses. */
  datatype ConsumerSpec = ConsumerSpec(
    stream: Str, durable: Str, filterSubject: Str, ackWaitMs: nat, maxDeliver: int, backoffMs: seq<nat>)

  /** The type-level service list; a service is its consumers, in declaration order. */
  datatype ServiceList = Nil | Cons(head: seq<ConsumerSpec>, tail: ServiceList)

  /** A negative `max_deliver` stands for no limit, and zero is raised to one. */
  function MaxDeliver(declared: int): (n: nat)
    ensures n >= 1
  {
    if declared < 0 then U64_MAX else if declared == 0 then 1 else declared
  }

  function Configured(spec: ConsumerSpec): Consumer {
    Consumer(spec.stream, spec.durable, spec.filterSubject, spec.ackWaitMs * NANOS_PER_MILLI,
             MaxDeliver(spec.maxDeliver),
             seq(|spec.backoffMs|, i requires 0 <= i < |spec.backoffMs| => spec.backoffMs[i] * NANOS_PER_MILLI))
  }

  /** The consumer is what the declaration says: times in milliseconds, `max_deliver` as it is if it is
      positive, one for zero and the largest number for a negative one. */
  ghost predicate IsDeclaredBy(c: Consumer, spec: ConsumerSpec) {
    && c.stream == spec.stream && c.durable == spec.durable && c.filterSubject == spec.filterSubject
    && c.ackWait == spec.ackWaitMs * 1_000_000
    && (spec.maxDeliver > 0 ==> c.maxDeliver == spec.maxDeliver)
    && (spec.maxDeliver == 0 ==> c.maxDeliver == 1)
    && (spec.maxDeliver < 0 ==> c.maxDeliver == 0xFFFF_FFFF_FFFF_FFFF)
    && |c.backoff| == |spec.backoffMs|
    && forall i | 0 <= i < |c.backoff| :: c.backoff[i] == spec.backoffMs[i] * 1_000_000
  }

  lemma ConfiguredExactly(spec: ConsumerSpec, c: Consumer)
    ensures c == Configured(spec) <==> IsDeclaredBy(c, spec)
  {
    if IsDeclaredBy(c, spec) {
      assert c.backoff == Configured(spec).backoff;
    }
  }

  predicate Routes(specs: seq<ConsumerSpec>, durable: Str) {
    exists i | 0 <= i < |specs| :: specs[i].durable == durable
  }

  /** Some service of the list declares the durable. */
  predicate Declares(services: ServiceList, durable: Str) {
    match services
    case Nil => false
    case Cons(head, tail) => Routes(head, durable) || Declares(tail, durable)
  }

  // ----- dispatching one delivery

  const NUM_DELIVERED := Ascii("Nats-Num-Delivered")

  function Decimal(n: nat): Str {
    if n < 10 then [0x30 + n] else Decimal(n / 10) + [0x30 + n % 10]
  }

  /** The request a handler sees: the message, with the attempt number among its headers. */
  function LocalRequest(d: Scheduled): Message {
    var headers := if d.message.headers.Some? then d.message.headers.value else map[];
    d.message.(headers := Some(headers[NUM_DELIVERED := [Decimal(d.attempt)]]))
  }

  /** The number that decimal digits spell. */
  function Spells(digits: Str): int {
    if digits == [] then 0 else 10 * Spells(digits[..|digits| - 1]) + digits[|digits| - 1] - 0x30
  }

  lemma {:induction false} DecimalSpells(n: nat)
    ensures Spells(Decimal(n)) == n && Decimal(n) != []
    ensures forall i | 0 <= i < |Decimal(n)| :: 0x30 <= Decimal(n)[i] <= 0x39
  {
    if n >= 10 {
      DecimalSpells(n / 10);
      assert Decimal(n)[..|Decimal(n)| - 1] == Decimal(n / 10);
    } else {
      assert Decimal(n)[..0] == [];
    }
  }

  /** A handler is told the number of the attempt, in decimal, under a header that nothing else can set, and is
      given the message's subject, payload and other headers as they were published. */
  lemma AttemptIsAnnounced(d: Scheduled)
    ensures
      var request := LocalRequest(d);
      && request.subject == d.message.subject && request.payload == d.message.payload
      && request.headers.Some? && Ascii("Nats-Num-Delivered") in request.headers.value
      && |request.headers.value[Ascii("Nats-Num-Delivered")]| == 1
      && Spells(request.headers.value[Ascii("Nats-Num-Delivered")][0]) == d.attempt
      && (forall i | 0 <= i < |request.headers.value[Ascii("Nats-Num-Delivered")][0]| :: 0x30 <= request.headers.value[Ascii("Nats-Num-Delivered")][0][i] <= 0x39)
      && forall name | name != Ascii("Nats-Num-Delivered") ::
           (name in request.headers.value <==> d.message.headers.Some? && name in d.message.headers.value)
           && (name in request.headers.value ==> request.headers.value[name] == d.message.headers.value[name])
  {
    DecimalSpells(d.attempt);
  }

  /** What a handler call comes to. Handlers may keep state of their own, so the result may also depend on
      how many calls came before. */
  datatype Outcome = Handled(action: Action) | Failed

  type Handler = (nat, Str, Message) -> Outcome

  /** `dispatch_consumer`: a failing handler counts as a Nack. */
  function ActionOf(outcome: Outcome): Action {
    match outcome
    case Handled(action) => action
    case Failed => Nack
  }

  datatype Dispatch = Matched(action: Action) | NotMatched

  /** Looking the durable up along the list: the first service that routes it handles the request. */
  function DispatchConsumer(services: ServiceList, durable: Str, handler: Handler, calls: nat, request: Message): Dispatch {
    match services
    case Nil => NotMatched
    case Cons(head, tail) =>
      if Routes(head, durable) then Matched(ActionOf(handler(calls, durable, request)))
      else DispatchConsumer(tail, durable, handler, calls, request)
  }

  lemma DispatchMatchesDeclared(services: ServiceList, durable: Str, handler: Handler, calls: nat, request: Message)
    ensures DispatchConsumer(services, durable, handler, calls, request) ==
            if !Declares(services, durable) then NotMatched
            else match handler(calls, durable, request) { case Handled(action) => Matched(action) case Failed => Matched(Nack) }
  {}

  // ----- the drain, as a function of the state

  function Weight(consumers: seq<Consumer>, d: Scheduled): nat {
    if Registered(consumers, d.durable) && d.attempt <= Cap(Find(consumers, d.durable))
    then Cap(Find(consumers, d.durable)) - d.attempt + 1
    else 0
  }

  /** How many deliveries the queue can still cause without the clock moving on. */
  function Measure(consumers: seq<Consumer>, pending: seq<Scheduled>): nat {
    if pending == [] then 0 else Weight(consumers, pending[0]) + Measure(consumers, pending[1..])
  }

  lemma {:induction false} MeasureConcat(consumers: seq<Consumer>, a: seq<Scheduled>, b: seq<Scheduled>)
    ensures Measure(consumers, a + b) == Measure(consumers, a) + Measure(consumers, b)
  {
    if a == [] {
      assert a + b == b;
    } else {
      MeasureConcat(consumers, a[1..], b);
      assert (a + b)[0] == a[0] && (a + b)[1..] == a[1..] + b;
    }
  }

  lemma MeasureWithout(consumers: seq<Consumer>, pending: seq<Scheduled>, i: nat)
    requires i < |pending|
    ensures Measure(consumers, pending) ==
            Weight(consumers, pending[i]) + Measure(consumers, pending[..i] + pending[i + 1..])
  {
    var front, back := pending[..i], pending[i + 1..];
    assert pending == front + ([pending[i]] + back);
    MeasureConcat(consumers, front, [pending[i]] + back);
    MeasureConcat(consumers, front, back);
    assert ([pending[i]] + back)[1..] == back;
  }

  /** The delivery a turn takes: the first one that is due. */
  function Taken(s: State): Scheduled
    requires FirstDue(s.pending, s.now) < |s.pending|
  {
    s.pending[FirstDue(s.pending, s.now)]
  }

  /** A turn pops the delivery and takes a planned timeout of its durable, if there is one. */
  function Begun(s: State): (State, bool)
    requires FirstDue(s.pending, s.now) < |s.pending| && Taken(s).id < |s.ledger|
  {
    TimeoutConsumed(Pop(s, FirstDue(s.pending, s.now)), Taken(s).durable)
  }

  ghost predicate SameSetting(s: State, t: State) {
    s.streams == t.streams && s.deadLetters == t.deadLetters && s.consumers == t.consumers && s.now == t.now
  }

  lemma {:induction false} BeginsTurn(s: State)
    requires Inv(s) && FirstDue(s.pending, s.now) < |s.pending|
    ensures Taken(s).id < |s.ledger| && s.ledger[Taken(s).id] == Entry(Taken(s), Pending)
    ensures
      var i, d, s1 := FirstDue(s.pending, s.now), Taken(s), Begun(s).0;
      && Inv(s1) && SameSetting(s, s1) && Holds(s1, d)
      && Registered(s.consumers, d.durable) && 1 <= d.attempt <= Cap(Find(s.consumers, d.durable))
      && s1.pending == s.pending[..i] + s.pending[i + 1..]
      && s1.ledger == s.ledger[d.id := Entry(d, Held)] && s1.letters == s.letters
  {
    var i, d := FirstDue(s.pending, s.now), Taken(s);
    PopKeeps(s, i);
    assert s.ledger[s.pending[i].id] == Entry(s.pending[i], Pending);
    assert KnownFanOut(s.consumers, s.ledger[d.id]);
    hide Inv;
    SameCounts(Pop(s, i), Begun(s).0);
  }

  /** One turn of the loop: the popped delivery misses its acknowledgement, is handled, or has no route. */
  ghost function Turn(s: State, services: ServiceList, handler: Handler, calls: nat): Option<(State, nat)>
    requires Inv(s) && FirstDue(s.pending, s.now) < |s.pending|
  {
    BeginsTurn(s);
    var d := Taken(s);
    var (s1, timedOut) := Begun(s);
    if timedOut then Some((TimedOut(s1, d), calls))
    else
      match DispatchConsumer(services, d.durable, handler, calls, LocalRequest(d))
      case Matched(action) => Some((Completed(s1, d, action), calls + 1))
      case NotMatched => None
  }

  /** What a turn does with the delivery; a missed acknowledgement is a Nack after the timeout's delay. */
  ghost function Verdict(s: State, services: ServiceList, handler: Handler, calls: nat): Action
    requires Inv(s) && FirstDue(s.pending, s.now) < |s.pending|
    requires Turn(s, services, handler, calls).Some?
  {
    BeginsTurn(s);
    var d := Taken(s);
    if Begun(s).1 then NackAfter(TimeoutDelay(Find(s.consumers, d.durable), d.attempt))
    else DispatchConsumer(services, d.durable, handler, calls, LocalRequest(d)).action
  }

  lemma {:induction false} TurnCompletes(s: State, services: ServiceList, handler: Handler, calls: nat)
    requires Inv(s) && FirstDue(s.pending, s.now) < |s.pending|
    requires Turn(s, services, handler, calls).Some?
    ensures Taken(s).id < |s.ledger| && Holds(Begun(s).0, Taken(s)) && Registered(Begun(s).0.consumers, Taken(s).durable)
    ensures Turn(s, services, handler, calls).value.0 ==
            Completed(Begun(s).0, Taken(s), Verdict(s, services, handler, calls))
  {
    hide Inv, Pop, TimeoutConsumed, Retried, DispatchConsumer, Holds, Position, FirstDue;
    BeginsTurn(s);
  }

  lemma {:induction false} RetriedMeasure(s: State, d: Scheduled, delay: nat)
    requires Holds(s, d) && Registered(s.consumers, d.durable) && 1 <= d.attempt <= Cap(Find(s.consumers, d.durable))
    ensures SameSetting(s, Retried(s, d, delay))
    ensures Measure(s.consumers, Retried(s, d, delay).pending) <
            Measure(s.consumers, s.pending) + Weight(s.consumers, d)
  {
    if d.attempt < Find(s.consumers, d.durable).maxDeliver {
      var next := Again(s, d, delay);
      MeasureConcat(s.consumers, s.pending, [next]);
      assert [next][1..] == [];
    }
  }

  lemma {:induction false} CompletedMeasure(s: State, d: Scheduled, action: Action)
    requires Holds(s, d) && Registered(s.consumers, d.durable) && 1 <= d.attempt <= Cap(Find(s.consumers, d.durable))
    ensures SameSetting(s, Completed(s, d, action))
    ensures Measure(s.consumers, Completed(s, d, action).pending) <
            Measure(s.consumers, s.pending) + Weight(s.consumers, d)
  {
    match action
    case Ack =>
    case Term =>
    case Nack => RetriedMeasure(s, d, 0);
    case NackAfter(delay) => RetriedMeasure(s, d, delay);
  }

  /** A turn keeps the invariant and uses up at least one of the remaining deliveries. */
  lemma {:induction false} TurnProgresses(s: State, services: ServiceList, handler: Handler, calls: nat)
    requires Inv(s) && FirstDue(s.pending, s.now) < |s.pending|
    requires Turn(s, services, handler, calls).Some?
    ensures
      var t := Turn(s, services, handler, calls).value.0;
      Inv(t) && SameSetting(s, t) && Measure(t.consumers, t.pending) < Measure(s.consumers, s.pending)
  {
    hide Inv, Pop, Begun, Completed, Verdict, Weight, Measure, Turn, Holds, Find, Position;
    BeginsTurn(s);
    TurnCompletes(s, services, handler, calls);
    var d, s1, action := Taken(s), Begun(s).0, Verdict(s, services, handler, calls);
    CompleteKeeps(s1, d, action);
    CompletedMeasure(s1, d, action);
    MeasureWithout(s.consumers, s.pending, FirstDue(s.pending, s.now));
  }

  /** The state in which `run_until_idle` stops, and the durable it found no route for, if any. */
  ghost function Drained(s: State, services: ServiceList, handler: Handler, calls: nat): (State, Result<(), Str>)
    requires Inv(s)
    decreases Measure(s.consumers, s.pending)
  {
    if FirstDue(s.pending, s.now) == |s.pending| then (s, Ok(()))
    else
      BeginsTurn(s);
      match Turn(s, services, handler, calls)
      case None => (Begun(s).0, Err(Taken(s).durable))
      case Some((next, calls1)) =>
        TurnProgresses(s, services, handler, calls);
        Drained(next, services, handler, calls1)
  }

  // ----- where the drain ends

  /** Every registered consumer has a route. */
  predicate Routed(services: ServiceList, consumers: seq<Consumer>) {
    forall i | 0 <= i < |consumers| :: Declares(services, consumers[i].durable)
  }

  lemma {:induction false} TurnHasRoute(s: State, services: ServiceList, handler: Handler, calls: nat)
    requires Inv(s) && FirstDue(s.pending, s.now) < |s.pending| && Routed(services, s.consumers)
    ensures Turn(s, services, handler, calls).Some?
  {
    hide Inv, Pop, TimeoutConsumed, Retried, Holds, FirstDue;
    BeginsTurn(s);
    DispatchMatchesDeclared(services, Taken(s).durable, handler, calls, LocalRequest(Taken(s)));
  }

  /** With a route for every registered consumer, the drain ends, whatever the handlers answer, in a state
      where nothing is due; it never stops for want of a route. */
  lemma {:induction false} DrainsToIdle(s: State, services: ServiceList, handler: Handler, calls: nat)
    requires Inv(s) && Routed(services, s.consumers)
    ensures
      var (t, r) := Drained(s, services, handler, calls);
      && r == Ok(()) && Inv(t) && SameSetting(s, t)
      && forall i | 0 <= i < |t.pending| :: t.pending[i].dueAt > t.now
    decreases Measure(s.consumers, s.pending)
  {
    hide Inv, Turn, Measure;
    if FirstDue(s.pending, s.now) < |s.pending| {
      TurnHasRoute(s, services, handler, calls);
      TurnProgresses(s, services, handler, calls);
      var (next, calls1) := Turn(s, services, handler, calls).value;
      DrainsToIdle(next, services, handler, calls1);
    }
  }

  // ----- a consumer that always answers Nack

  /** The durable's handler fails or answers Nack, whatever it is given. */
  ghost predicate AlwaysNacks(handler: Handler, durable: Str) {
    forall calls, request :: handler(calls, durable, request) == Handled(Nack) || handler(calls, durable, request) == Failed
  }

  /** The fan-out's queued delivery, if it has one, is due. */
  ghost predicate DueNow(pending: seq<Scheduled>, now: nat, id: nat) {
    forall i | 0 <= i < |pending| && pending[i].id == id :: pending[i].dueAt <= now
  }

  /** The fan-out is queued and due, or has used up all its attempts. */
  ghost predicate Doomed(s: State, durable: Str, message: Message, id: nat) {
    && id < |s.ledger| && s.ledger[id].durable == durable && s.ledger[id].message == message
    && Registered(s.consumers, durable)
    && (s.ledger[id].status == Pending ||
        (s.ledger[id].status == Exhausted && s.ledger[id].attempt == Cap(Find(s.consumers, durable))))
  }

  lemma {:induction false} NackKeepsDoomed(s: State, d: Scheduled)
    requires Holds(s, d) && Registered(s.consumers, d.durable) && 1 <= d.attempt <= Cap(Find(s.consumers, d.durable))
    ensures Doomed(Completed(s, d, Nack), d.durable, d.message, d.id)
  {}

  lemma {:induction false} CompletionKeepsOthersDoomed(
      s: State, d: Scheduled, action: Action, durable: Str, message: Message, id: nat)
    requires Holds(s, d) && Registered(s.consumers, d.durable)
    requires d.id != id && Doomed(s, durable, message, id)
    ensures Doomed(Completed(s, d, action), durable, message, id)
  {
    hide Position, Find, Cap;
    assert Completed(s, d, action).ledger[id] == s.ledger[id];
  }

  lemma {:induction false} CompletionKeepsDue(s: State, d: Scheduled, action: Action, id: nat)
    requires Holds(s, d) && Registered(s.consumers, d.durable) && ClockInRange(s) && DueNow(s.pending, s.now, id)
    requires d.id == id ==> action == Nack
    ensures DueNow(Completed(s, d, action).pending, Completed(s, d, action).now, id)
  {
    hide Position, Find;
  }

  lemma DueWithout(pending: seq<Scheduled>, i: nat, now: nat, id: nat)
    requires i < |pending| && DueNow(pending, now, id)
    ensures DueNow(pending[..i] + pending[i + 1..], now, id)
  {
    var left := pending[..i] + pending[i + 1..];
    assert forall j | 0 <= j < |left| :: left[j] == pending[if j < i then j else j + 1];
  }

  lemma {:induction false} TimeoutsOfOthers(s: State, taken: Str, durable: Str)
    requires durable !in s.timeoutNext
    ensures durable !in TimeoutConsumed(s, taken).0.timeoutNext
    ensures taken == durable ==> !TimeoutConsumed(s, taken).1
  {}

  lemma {:induction false} CompletedKeepsTimeouts(s: State, d: Scheduled, action: Action)
    requires Holds(s, d) && Registered(s.consumers, d.durable)
    ensures Completed(s, d, action).timeoutNext == s.timeoutNext && |Completed(s, d, action).ledger| == |s.ledger|
  {}

  ghost predicate Nacking(s: State, services: ServiceList, handler: Handler, durable: Str) {
    && Inv(s) && ClockInRange(s) && Routed(services, s.consumers)
    && AlwaysNacks(handler, durable) && durable !in s.timeoutNext
  }

  lemma {:induction false} NackingVerdict(s: State, services: ServiceList, handler: Handler, calls: nat, durable: Str)
    requires Nacking(s, services, handler, durable) && FirstDue(s.pending, s.now) < |s.pending|
    requires Turn(s, services, handler, calls).Some?
    ensures Taken(s).id < |s.ledger| && durable !in Begun(s).0.timeoutNext
    ensures Taken(s).durable == durable ==> Verdict(s, services, handler, calls) == Nack
  {
    hide Inv, FirstDue, Routed;
    BeginsTurn(s);
    TimeoutsOfOthers(Pop(s, FirstDue(s.pending, s.now)), Taken(s).durable, durable);
    hide Begun;
    DispatchMatchesDeclared(services, Taken(s).durable, handler, calls, LocalRequest(Taken(s)));
  }

  lemma {:induction false} NackingTurn(
      s: State, services: ServiceList, handler: Handler, calls: nat, durable: Str, message: Message, id: nat)
    requires Nacking(s, services, handler, durable) && Doomed(s, durable, message, id) && DueNow(s.pending, s.now, id)
    requires FirstDue(s.pending, s.now) < |s.pending| && Turn(s, services, handler, calls).Some?
    ensures
      var t := Turn(s, services, handler, calls).value.0;
      Nacking(t, services, handler, durable) && Doomed(t, durable, message, id) && DueNow(t.pending, t.now, id)
  {
    hide Inv, Turn, Completed, Verdict, FirstDue, Routed, AlwaysNacks, Begun, Taken, DueNow;
    BeginsTurn(s);
    TurnProgresses(s, services, handler, calls);
    TurnCompletes(s, services, handler, calls);
    NackingVerdict(s, services, handler, calls, durable);
    var d, s1, action := Taken(s), Begun(s).0, Verdict(s, services, handler, calls);
    DueWithout(s.pending, FirstDue(s.pending, s.now), s.now, id);
    CompletionKeepsDue(s1, d, action, id);
    CompletedKeepsTimeouts(s1, d, action);
    if d.id == id {
      NackKeepsDoomed(s1, d);
    } else {
      CompletionKeepsOthersDoomed(s1, d, action, durable, message, id);
    }
  }

  /** Once nothing is due, a doomed fan-out whose delivery would be due can only be exhausted. */
  lemma {:induction false} DoomedIsExhausted(s: State, durable: Str, message: Message, id: nat)
    requires Queued(s) && DueNow(s.pending, s.now, id) && FirstDue(s.pending, s.now) == |s.pending|
    requires Doomed(s, durable, message, id)
    ensures id < |s.ledger| && s.ledger[id].status == Exhausted
  {}

  lemma {:induction false} InvIsQueued(s: State)
    requires Inv(s)
    ensures Queued(s) && Numbered(s)
  {}

  lemma {:induction false} NackingDrain(
      s: State, services: ServiceList, handler: Handler, calls: nat, durable: Str, message: Message, id: nat)
    requires Nacking(s, services, handler, durable) && Doomed(s, durable, message, id) && DueNow(s.pending, s.now, id)
    ensures
      var (t, r) := Drained(s, services, handler, calls);
      && r == Ok(()) && Inv(t) && SameSetting(s, t) && Doomed(t, durable, message, id)
      && id < |t.ledger| && t.ledger[id].status == Exhausted
    decreases Measure(s.consumers, s.pending)
  {
    hide Inv, Turn, Measure, Doomed, DueNow, AlwaysNacks;
    if FirstDue(s.pending, s.now) == |s.pending| {
      InvIsQueued(s);
      DoomedIsExhausted(s, durable, message, id);
    } else {
      TurnHasRoute(s, services, handler, calls);
      TurnProgresses(s, services, handler, calls);
      NackingTurn(s, services, handler, calls, durable, message, id);
      var (next, calls1) := Turn(s, services, handler, calls).value;
      NackingDrain(next, services, handler, calls1, durable, message, id);
    }
  }

  /** The fan-out has exactly this dead letter. */
  ghost predicate OnlyLetter(letters: seq<Letter>, id: nat, event: Message) {
    exists k | 0 <= k < |letters| ::
      letters[k] == Letter(id, event) && forall j | 0 <= j < |letters| && j != k :: letters[j].id != id
  }

  /** A message that is due, whose handler always answers Nack and for which no timeout is planned, is
      delivered at attempts 1, 2, ... up to the cap and no further. It then leaves one dead letter, the message
      itself under the dead-letter subject, or none if the durable has no such subject. */
  lemma {:induction false} AlwaysNackedIsDeliveredToTheCap(
      s: State, services: ServiceList, handler: Handler, calls: nat, durable: Str, id: nat)
    requires Nacking(s, services, handler, durable)
    requires id < |s.ledger| && s.ledger[id].status == Pending && s.ledger[id].durable == durable
    requires Registered(s.consumers, durable) && DueNow(s.pending, s.now, id)
    ensures
      var t := Drained(s, services, handler, calls).0;
      && AttemptsOf(t.history, id) == OneTo(Cap(Find(s.consumers, durable)))
      && if durable in s.deadLetters then
           OnlyLetter(t.letters, id, s.ledger[id].message.(subject := s.deadLetters[durable]))
         else !HasLetter(t.letters, id)
  {
    NackingDrain(s, services, handler, calls, durable, s.ledger[id].message, id);
    var t := Drained(s, services, handler, calls).0;
    assert InTurn(t.history, t.ledger, id);
    if durable in s.deadLetters {
      assert HasLetter(t.letters, id);
      var k :| 0 <= k < |t.letters| && t.letters[k].id == id;
      assert t.letters[k] == Letter(id, t.ledger[id].message.(subject := s.deadLetters[durable]));
    }
  }

  // ----- the harness

  /** Registering a service's consumers in order, up to the first one that is refused. */
  ghost function RegisteredSpecs(s: State, specs: seq<ConsumerSpec>): (State, Result<(), SimulatorError>)
    decreases specs
  {
    if specs == [] then (s, Ok(()))
    else
      match RegisteredWith(s, Configured(specs[0]))
      case Err(error) => (s, Err(error))
      case Ok(s1) => RegisteredSpecs(s1, specs[1..])
  }

  ghost function RegisteredServices(s: State, services: ServiceList): (State, Result<(), SimulatorError>)
    decreases services
  {
    match services
    case Nil => (s, Ok(()))
    case Cons(head, tail) =>
      var (s1, r) := RegisteredSpecs(s, head);
      if r.Err? then (s1, r) else RegisteredServices(s1, tail)
  }

  /** Each consumer is the configuration of one of the list's declarations. */
  ghost predicate From(consumers: seq<Consumer>, services: ServiceList) {
    forall i | 0 <= i < |consumers| :: Configures(services, consumers[i])
  }

  ghost predicate Configures(services: ServiceList, c: Consumer) {
    match services
    case Nil => false
    case Cons(head, tail) => (exists i | 0 <= i < |head| :: IsDeclaredBy(c, head[i])) || Configures(tail, c)
  }

  /** Some consumer is what the declaration says. */
  ghost predicate Provides(consumers: seq<Consumer>, spec: ConsumerSpec) {
    exists c :: c in consumers && IsDeclaredBy(c, spec)
  }

  ghost predicate Covered(consumers: seq<Consumer>, specs: seq<ConsumerSpec>) {
    forall i | 0 <= i < |specs| :: Provides(consumers, specs[i])
  }

  lemma {:induction false} RegisterSpecsKeeps(s: State, specs: seq<ConsumerSpec>)
    requires Inv(s)
    ensures
      var (t, r) := RegisteredSpecs(s, specs);
      && Inv(t)
      && (forall c | c in s.consumers :: c in t.consumers)
      && (forall c | c in t.consumers :: c in s.consumers || exists i | 0 <= i < |specs| :: IsDeclaredBy(c, specs[i]))
      && (r.Ok? ==> Covered(t.consumers, specs))
    decreases specs
  {
    hide Inv, Configured, RegisteredWith, IsDeclaredBy;
    if specs != [] {
      var c := Configured(specs[0]);
      ConfiguredExactly(specs[0], c);
      if RegisteredWith(s, c).Ok? {
        RegisterKeeps(s, c);
        var s1 := RegisteredWith(s, c).value;
        RegisterAdds(s, c);
        RegisterSpecsKeeps(s1, specs[1..]);
        var (t, r) := RegisteredSpecs(s1, specs[1..]);
        forall x | x in t.consumers
          ensures x in s.consumers || exists i | 0 <= i < |specs| :: IsDeclaredBy(x, specs[i])
        {
          if x !in s1.consumers {
            var i :| 0 <= i < |specs[1..]| && IsDeclaredBy(x, specs[1..][i]);
            assert IsDeclaredBy(x, specs[i + 1]);
          }
        }
        if r.Ok? {
          forall i | 0 <= i < |specs|
            ensures Provides(t.consumers, specs[i])
          {
            if i > 0 {
              assert specs[1..][i - 1] == specs[i];
            } else {
              assert c in t.consumers;
            }
          }
        }
      }
    }
  }

  lemma {:induction false} RegisterAdds(s: State, c: Consumer)
    requires RegisteredWith(s, c).Ok?
    ensures forall x :: x in RegisteredWith(s, c).value.consumers <==> x == c || x in s.consumers
  {
    InsertHolds(s.consumers, c);
  }

  /** Every declaration of the list is in force. */
  ghost predicate InForce(services: ServiceList, consumers: seq<Consumer>) {
    match services
    case Nil => true
    case Cons(head, tail) => Covered(consumers, head) && InForce(tail, consumers)
  }

  lemma CoveredGrows(consumers: seq<Consumer>, more: seq<Consumer>, specs: seq<ConsumerSpec>)
    requires Covered(consumers, specs) && forall c | c in consumers :: c in more
    ensures Covered(more, specs)
  {
    forall i | 0 <= i < |specs|
      ensures Provides(more, specs[i])
    {
      assert Provides(consumers, specs[i]);
      var c :| c in consumers && IsDeclaredBy(c, specs[i]);
      assert c in more;
    }
  }

  lemma {:induction false} RegisterServicesKeeps(s: State, services: ServiceList)
    requires Inv(s)
    ensures
      var (t, r) := RegisteredServices(s, services);
      && Inv(t)
      && (forall c | c in s.consumers :: c in t.consumers)
      && (forall c | c in t.consumers :: c in s.consumers || Configures(services, c))
      && (r.Ok? ==> InForce(services, t.consumers))
    decreases services
  {
    hide Inv, Configured, RegisteredSpecs, IsDeclaredBy, Covered;
    match services
    case Nil =>
    case Cons(head, tail) =>
      RegisterSpecsKeeps(s, head);
      var (s1, r) := RegisteredSpecs(s, head);
      if r.Ok? {
        RegisterServicesKeeps(s1, tail);
        var t := RegisteredServices(s1, tail).0;
        CoveredGrows(s1.consumers, t.consumers, head);
        assert RegisteredServices(s, services) == RegisteredServices(s1, tail);
      }
  }

  lemma {:induction false} ConfiguredIsDeclared(services: ServiceList, c: Consumer)
    requires Configures(services, c)
    ensures Declares(services, c.durable) && c.maxDeliver >= 1
    decreases services
  {
    match services
    case Nil =>
    case Cons(head, tail) =>
      if exists i | 0 <= i < |head| :: IsDeclaredBy(c, head[i]) {
        var i :| 0 <= i < |head| && IsDeclaredBy(c, head[i]);
        assert head[i].durable == c.durable;
      } else {
        ConfiguredIsDeclared(tail, c);
      }
  }

  /** A harness built from a service list starts in a good state: each declaration is registered, nothing
      else is, every registered consumer has a route, and every consumer allows at least one delivery. */
  lemma {:induction false} HarnessStartsRouted(streams: seq<Stream>, deadLetters: map<Str, Str>, services: ServiceList)
    ensures
      var (s, r) := RegisteredServices(Initial(streams, deadLetters), services);
      && Inv(s) && Routed(services, s.consumers)
      && (forall c | c in s.consumers :: c.maxDeliver >= 1 && Configures(services, c))
      && (r.Ok? ==> InForce(services, s.consumers))
  {
    RegisterServicesKeeps(Initial(streams, deadLetters), services);
    var (s, r) := RegisteredServices(Initial(streams, deadLetters), services);
    forall c | c in s.consumers
      ensures c.maxDeliver >= 1 && Declares(services, c.durable)
    {
      ConfiguredIsDeclared(services, c);
    }
  }

  // ----- whole runs of a harness

  /** One use of a running harness. */
  datatype HarnessStep =
    | PublishMessage(message: Message)
    | PlanTimeout(durable: Str)
    | AdvanceBy(duration: nat)
    | DrainWith(handler: Handler)

  ghost function HarnessNext(s: State, services: ServiceList, step: HarnessStep): State {
    match step
    case PublishMessage(message) => if Published(s, message).Ok? then Published(s, message).value else s
    case PlanTimeout(durable) => s.(timeoutNext := s.timeoutNext + [durable])
    case AdvanceBy(duration) => s.(now := SaturatingAdd(s.now, duration))
    case DrainWith(handler) => if Inv(s) then Drained(s, services, handler, 0).0 else s
  }

  ghost function HarnessRun(s: State, services: ServiceList, steps: seq<HarnessStep>): State
    decreases steps
  {
    if steps == [] then s else HarnessRun(HarnessNext(s, services, steps[0]), services, steps[1..])
  }

  ghost predicate Good(s: State, services: ServiceList) {
    Inv(s) && ClockInRange(s) && Routed(services, s.consumers)
  }

  /** Everything but the clock, which registration and steps of the harness leave alone. */
  ghost predicate SameDeclarations(s: State, t: State) {
    s.streams == t.streams && s.deadLetters == t.deadLetters && s.consumers == t.consumers
  }

  lemma {:induction false} EnqueueAllFrame(s: State, durables: seq<Str>, message: Message)
    ensures
      var t := EnqueueAll(s, durables, message);
      SameSetting(s, t) && t.timeoutNext == s.timeoutNext
    decreases durables
  {
    if durables != [] {
      EnqueueAllFrame(Enqueue(s, durables[0], message), durables[1..], message);
    }
  }

  lemma {:induction false} HarnessStepKeeps(s: State, services: ServiceList, step: HarnessStep)
    requires Good(s, services)
    ensures Good(HarnessNext(s, services, step), services) && SameDeclarations(s, HarnessNext(s, services, step))
    ensures step.DrainWith? ==> Drained(s, services, step.handler, 0).1 == Ok(())
  {
    hide Inv, Drained, Measure, Routed, FanOutTo;
    match step
    case PublishMessage(message) =>
      if Published(s, message).Ok? {
        PublishKeeps(s, message);
        EnqueueAllFrame(s, FanOutTo(s.consumers, s.streams, message.subject), message);
      }
    case PlanTimeout(_) => SameCounts(s, HarnessNext(s, services, step));
    case AdvanceBy(_) => SameCounts(s, HarnessNext(s, services, step));
    case DrainWith(handler) => DrainsToIdle(s, services, handler, 0);
  }

  lemma {:induction false} HarnessRunKeepsFrom(s: State, services: ServiceList, steps: seq<HarnessStep>)
    requires Good(s, services)
    ensures Good(HarnessRun(s, services, steps), services) && SameDeclarations(s, HarnessRun(s, services, steps))
    decreases steps
  {
    hide Good, HarnessNext;
    if steps != [] {
      HarnessStepKeeps(s, services, steps[0]);
      HarnessRunKeepsFrom(HarnessNext(s, services, steps[0]), services, steps[1..]);
    }
  }

  lemma {:induction false} RegisteredSpecsFrame(s: State, specs: seq<ConsumerSpec>)
    ensures
      var t := RegisteredSpecs(s, specs).0;
      t.now == s.now && t.streams == s.streams && t.deadLetters == s.deadLetters
    decreases specs
  {
    hide Configured;
    if specs != [] && RegisteredWith(s, Configured(specs[0])).Ok? {
      RegisteredSpecsFrame(RegisteredWith(s, Configured(specs[0])).value, specs[1..]);
    }
  }

  lemma {:induction false} RegisteredServicesFrame(s: State, services: ServiceList)
    ensures
      var t := RegisteredServices(s, services).0;
      t.now == s.now && t.streams == s.streams && t.deadLetters == s.deadLetters
    decreases services
  {
    hide RegisteredSpecs;
    match services
    case Nil =>
    case Cons(head, tail) =>
      RegisteredSpecsFrame(s, head);
      RegisteredServicesFrame(RegisteredSpecs(s, head).0, tail);
  }

  /** The state of a harness after it started and was used. */
  ghost function HarnessState(streams: seq<Stream>, deadLetters: map<Str, Str>, services: ServiceList, steps: seq<HarnessStep>): State {
    HarnessRun(RegisteredServices(Initial(streams, deadLetters), services).0, services, steps)
  }

  /** In every run of a harness, whatever is published, planned, advanced and drained with whatever handlers:
      the invariant holds, every registered consumer has a route and allows at least one delivery, the
      declarations stay as they were registered, and the next drain ends with nothing due. */
  lemma {:induction false} HarnessRunsKeep(
      streams: seq<Stream>, deadLetters: map<Str, Str>, services: ServiceList, steps: seq<HarnessStep>, handler: Handler)
    ensures
      var s := HarnessState(streams, deadLetters, services, steps);
      && Good(s, services) && s.deadLetters == deadLetters && s.streams == streams
      && (forall c | c in s.consumers :: c.maxDeliver >= 1 && Configures(services, c))
      && var (t, r) := Drained(s, services, handler, 0);
         r == Ok(()) && forall i | 0 <= i < |t.pending| :: t.pending[i].dueAt > t.now
  {
    hide Inv, Drained, HarnessRun, Routed, Configures;
    HarnessStartsRouted(streams, deadLetters, services);
    RegisteredServicesFrame(Initial(streams, deadLetters), services);
    hide RegisteredServices;
    HarnessRunKeepsFrom(RegisteredServices(Initial(streams, deadLetters), services).0, services, steps);
    DrainsToIdle(HarnessState(streams, deadLetters, services, steps), services, handler, 0);
  }

  lemma {:induction false} PublishedIsDue(s: State, message: Message, k: nat)
    requires Inv(s) && Published(s, message).Ok? && k < |FanOutTo(s.consumers, s.streams, message.subject)|
    ensures
      var t, id, durable := Published(s, message).value, |s.ledger| + k, FanOutTo(s.consumers, s.streams, message.subject)[k];
      && id < |t.ledger| && t.ledger[id] == FanOut(durable, message, 1, Pending)
      && DueNow(t.pending, t.now, id) && Registered(t.consumers, durable)
  {
    hide FanOutTo, Inv;
    PublishKeeps(s, message);
    EnqueueAllAppends(s, FanOutTo(s.consumers, s.streams, message.subject), message);
    FirstAttemptIsDue(Published(s, message).value, |s.ledger| + k);
  }

  lemma FirstAttemptIsDue(s: State, id: nat)
    requires Inv(s) && id < |s.ledger| && s.ledger[id].attempt == 1
    ensures DueNow(s.pending, s.now, id) && Registered(s.consumers, s.ledger[id].durable)
  {
    assert KnownFanOut(s.consumers, s.ledger[id]);
    forall i | 0 <= i < |s.pending| && s.pending[i].id == id
      ensures s.pending[i].dueAt <= s.now
    {
      assert s.ledger[s.pending[i].id] == Entry(s.pending[i], Pending);
    }
  }

  /** After any run of a harness: a message published to a consumer that always answers Nack, with no timeout
      planned for it, is delivered by the next drain at attempts 1 to `max_deliver`, whatever else is queued,
      and then leaves exactly one dead letter if its durable has a dead-letter subject, and none otherwise. */
  lemma {:induction false} PublishedAndNackedReachesTheCap(
      streams: seq<Stream>, deadLetters: map<Str, Str>, services: ServiceList, steps: seq<HarnessStep>,
      message: Message, k: nat, handler: Handler)
    requires
      var s := HarnessState(streams, deadLetters, services, steps);
      var durables := FanOutTo(s.consumers, s.streams, message.subject);
      && Published(s, message).Ok? && k < |durables|
      && AlwaysNacks(handler, durables[k]) && durables[k] !in s.timeoutNext
    ensures
      var s := HarnessState(streams, deadLetters, services, steps);
      var durable, id := FanOutTo(s.consumers, s.streams, message.subject)[k], |s.ledger| + k;
      && Registered(s.consumers, durable) && Inv(Published(s, message).value)
      && var t := Drained(Published(s, message).value, services, handler, 0).0;
         && AttemptsOf(t.history, id) == OneTo(Find(s.consumers, durable).maxDeliver)
         && if durable in deadLetters then OnlyLetter(t.letters, id, message.(subject := deadLetters[durable]))
            else !HasLetter(t.letters, id)
  {
    hide Inv, Drained, HarnessRun, HarnessState, Routed, Configures, FanOutTo, AlwaysNacks, AttemptsOf, OnlyLetter, HasLetter;
    HarnessRunsKeep(streams, deadLetters, services, steps, handler);
    var s := HarnessState(streams, deadLetters, services, steps);
    var durables := FanOutTo(s.consumers, s.streams, message.subject);
    PublishKeeps(s, message);
    PublishedIsDue(s, message, k);
    EnqueueAllFrame(s, durables, message);
    AlwaysNackedIsDeliveredToTheCap(Published(s, message).value, services, handler, 0, durables[k], |s.ledger| + k);
    assert Find(s.consumers, durables[k]) in s.consumers;
  }

  lemma {:induction false} EventsAppend(a: seq<Letter>, b: seq<Letter>)
    ensures Events(a + b) == Events(a) + Events(b)
  {}

  lemma {:induction false} EventsCompose(s: State, t: State, u: State)
    requires s.letters <= t.letters && t.letters <= u.letters
    ensures s.letters <= u.letters && NewEvents(s, u) == NewEvents(s, t) + NewEvents(t, u)
  {
    var n := |s.letters|;
    assert u.letters[n..] == t.letters[n..] + u.letters[|t.letters|..];
    EventsAppend(t.letters[n..], u.letters[|t.letters|..]);
  }

  lemma {:induction false} CompletedLetters(s: State, d: Scheduled, action: Action)
    requires Holds(s, d) && Registered(s.consumers, d.durable)
    ensures s.letters <= Completed(s, d, action).letters
  {}

  lemma {:induction false} TurnLetters(s: State, services: ServiceList, handler: Handler, calls: nat)
    requires Inv(s) && FirstDue(s.pending, s.now) < |s.pending|
    requires Turn(s, services, handler, calls).Some?
    ensures s.letters <= Turn(s, services, handler, calls).value.0.letters
    ensures s.letters == Begun(s).0.letters
  {
    hide Inv, Completed, Verdict;
    BeginsTurn(s);
    TurnCompletes(s, services, handler, calls);
    CompletedLetters(Begun(s).0, Taken(s), Verdict(s, services, handler, calls));
  }

  lemma {:induction false} NothingNew(s: State, t: State)
    requires s.letters == t.letters
    ensures NewEvents(s, t) == []
  {}

  lemma {:induction false} SameLettersSameEvents(s: State, t: State, u: State)
    requires s.letters == t.letters <= u.letters
    ensures NewEvents(s, u) == NewEvents(t, u)
  {}

  /** The parts of the local transport that consumer tests use. */
  class TestHarness {
    const services: ServiceList
    const simulator: JetStreamSimulator

    constructor (services: ServiceList, simulator: JetStreamSimulator)
      ensures this.services == services && this.simulator == simulator
    {
      this.services, this.simulator := services, simulator;
    }

    /** `register_consumers` for one service. */
    method RegisterSpecs(specs: seq<ConsumerSpec>) returns (r: Result<(), SimulatorError>)
      requires simulator.Valid()
      modifies simulator
      ensures simulator.Valid()
      ensures (simulator.View(), r) == RegisteredSpecs(old(simulator.View()), specs)
    {
      for i := 0 to |specs|
        invariant simulator.Valid()
        invariant RegisteredSpecs(simulator.View(), specs[i..]) == RegisteredSpecs(old(simulator.View()), specs)
      {
        DropOne(specs, i);
        r := simulator.RegisterConsumer(Configured(specs[i]));
        if r.Err? {
          return;
        }
      }
      return Ok(());
    }

    /** `register_consumers` along the service list. */
    method RegisterConsumers(services: ServiceList) returns (r: Result<(), SimulatorError>)
      requires simulator.Valid()
      modifies simulator
      ensures simulator.Valid()
      ensures (simulator.View(), r) == RegisteredServices(old(simulator.View()), services)
      decreases services
    {
      match services {
        case Nil => r := Ok(());
        case Cons(head, tail) =>
          r := RegisterSpecs(head);
          if r.Ok? {
            r := RegisterConsumers(tail);
          }
      }
    }

    /** One turn of `run_until_idle`, for a delivery just taken from the queue in state `s`. The result is
        the number of handler calls so far, or nothing if the delivery has no route. */
    method Serve(d: Scheduled, handler: Handler, calls: nat, ghost s: State) returns (served: Option<nat>)
      requires Inv(s) && FirstDue(s.pending, s.now) < |s.pending| && d == Taken(s)
      requires simulator.Valid() && simulator.View() == Pop(s, FirstDue(s.pending, s.now))
      modifies simulator, simulator.events
      ensures simulator.Valid()
      ensures match Turn(s, services, handler, calls)
              case None => served == None && simulator.View() == Begun(s).0
              case Some((after, calls1)) => served == Some(calls1) && simulator.View() == after
      ensures s.letters <= simulator.letters
      ensures simulator.events.entries == old(simulator.events.entries) + NewEvents(s, simulator.View())
    {
      hide Inv, Pop, TimeoutConsumed, TimedOut, Completed, DispatchConsumer, FirstDue, NewEvents, Position, Find, Holds;
      BeginsTurn(s);
      NothingNew(s, Begun(s).0);
      if Turn(s, services, handler, calls).Some? {
        TurnLetters(s, services, handler, calls);
      }
      var planned := simulator.ConsumeTimeout(d.durable);
      assert simulator.View() == Begun(s).0;
      SameLettersSameEvents(s, Begun(s).0, if Turn(s, services, handler, calls).Some? then Turn(s, services, handler, calls).value.0 else s);
      if planned {
        simulator.CompleteTimeout(d);
        return Some(calls);
      }
      match DispatchConsumer(services, d.durable, handler, calls, LocalRequest(d)) {
        case NotMatched => return None;
        case Matched(action) =>
          simulator.Complete(d, action);
          return Some(calls + 1);
      }
    }

    /** `run_until_idle`: serves the queue until nothing is due. */
    method RunUntilIdle(handler: Handler) returns (r: Result<(), Str>)
      requires simulator.Valid() && Inv(simulator.View())
      modifies simulator, simulator.events
      ensures simulator.Valid()
      ensures (simulator.View(), r) == Drained(old(simulator.View()), services, handler, 0)
      ensures old(simulator.letters) <= simulator.letters
      ensures simulator.events.entries == old(simulator.events.entries) + NewEvents(old(simulator.View()), simulator.View())
    {
      hide Inv, Pop, Begun, Turn, Measure, NewEvents;
      ghost var start := simulator.View();
      ghost var logged := simulator.events.entries;
      var calls := 0;
      NothingNew(start, start);
      while true
        invariant simulator.Valid() && Inv(simulator.View())
        invariant Drained(simulator.View(), services, handler, calls) == Drained(start, services, handler, 0)
        invariant start.letters <= simulator.letters
        invariant simulator.events.entries == logged + NewEvents(start, simulator.View())
        decreases Measure(simulator.consumers, simulator.pending)
      {
        ghost var s := simulator.View();
        InvIsQueued(s);
        var due := simulator.NextDue();
        if due.None? {
          return Ok(());
        }
        var served := Serve(due.value, handler, calls, s);
        EventsCompose(start, s, simulator.View());
        if served.None? {
          return Err(due.value.durable);
        }
        TurnProgresses(s, services, handler, calls);
        calls := served.value;
      }
    }
  }
}
