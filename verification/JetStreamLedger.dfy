/** What every run of the simulator keeps: the ledger of fan-outs, the delivery counts, the dead letters
    and the order of deliveries. */
module JetStreamLedger {
  import opened Text
  import opened JetStream
  import opened Subjects

  /** The most deliveries a fan-out can get: even `max_deliver` 0 delivers once. */
  function Cap(c: Consumer): (cap: nat)
    ensures cap >= 1 && cap >= c.maxDeliver
  {
    if c.maxDeliver == 0 then 1 else c.maxDeliver
  }

  /** How often a fan-out has been delivered. */
  function Used(f: FanOut): nat {
    if f.status == Pending && f.attempt > 0 then f.attempt - 1 else f.attempt
  }

  function Spent(ledger: seq<FanOut>, durable: Str): nat {
    if ledger == [] then 0
    else (if ledger[0].durable == durable then Used(ledger[0]) else 0) + Spent(ledger[1..], durable)
  }

  function Enqueued(ledger: seq<FanOut>, durable: Str): nat {
    if ledger == [] then 0
    else (if ledger[0].durable == durable then 1 else 0) + Enqueued(ledger[1..], durable)
  }

  lemma {:induction false} SpentAppend(ledger: seq<FanOut>, f: FanOut, durable: Str)
    ensures Spent(ledger + [f], durable) == Spent(ledger, durable) + if f.durable == durable then Used(f) else 0
  {
    if ledger == [] {
      assert (ledger + [f])[1..] == [];
    } else {
      SpentAppend(ledger[1..], f, durable);
      assert (ledger + [f])[1..] == ledger[1..] + [f];
    }
  }

  lemma {:induction false} SpentUpdate(ledger: seq<FanOut>, id: nat, f: FanOut, durable: Str)
    requires id < |ledger| && f.durable == ledger[id].durable
    ensures Spent(ledger[id := f], durable) + (if f.durable == durable then Used(ledger[id]) else 0) ==
            Spent(ledger, durable) + if f.durable == durable then Used(f) else 0
  {
    if id == 0 {
      assert ledger[id := f][1..] == ledger[1..];
    } else {
      SpentUpdate(ledger[1..], id - 1, f, durable);
      assert ledger[id := f][1..] == ledger[1..][id - 1 := f];
    }
  }

  // ----- the invariant, in parts

  ghost predicate Sorted(consumers: seq<Consumer>) {
    forall i, j | 0 <= i < j < |consumers| :: StrLess(consumers[i].durable, consumers[j].durable)
  }

  /** Every fan-out belongs to a registered consumer and stays within its attempts. */
  ghost predicate Known(s: State) {
    forall id | 0 <= id < |s.ledger| :: KnownFanOut(s.consumers, s.ledger[id])
  }

  ghost predicate KnownFanOut(consumers: seq<Consumer>, f: FanOut) {
    Registered(consumers, f.durable) && 1 <= f.attempt <= Cap(Find(consumers, f.durable))
  }

  ghost predicate InQueue(pending: seq<Scheduled>, id: nat) {
    exists i | 0 <= i < |pending| :: pending[i].id == id
  }

  /** The queue holds each pending fan-out once, at its current attempt, and nothing else. */
  ghost predicate Queued(s: State) {
    && (forall i | 0 <= i < |s.pending| ::
          s.pending[i].id < |s.ledger| && s.ledger[s.pending[i].id] == Entry(s.pending[i], Pending))
    && (forall i, j | 0 <= i < j < |s.pending| :: s.pending[i].id != s.pending[j].id)
    && (forall id | 0 <= id < |s.ledger| && s.ledger[id].status == Pending :: InQueue(s.pending, id))
  }

  /** The delivery counter of every durable is what its fan-outs used up. */
  ghost predicate Counted(s: State) {
    forall durable :: Deliveries(s, durable) == Spent(s.ledger, durable)
  }

  ghost predicate HasLetter(letters: seq<Letter>, id: nat) {
    exists k | 0 <= k < |letters| :: letters[k].id == id
  }

  /** Each exhausted fan-out of a durable with a dead-letter subject has one dead letter, a copy of its
      message under that subject, and there are no other letters. */
  ghost predicate Lettered(s: State) {
    && (forall k | 0 <= k < |s.letters| ::
          && s.letters[k].id < |s.ledger|
          && var f := s.ledger[s.letters[k].id];
             && f.status == Exhausted && f.durable in s.deadLetters
             && s.letters[k].event == f.message.(subject := s.deadLetters[f.durable]))
    && (forall j, k | 0 <= j < k < |s.letters| :: s.letters[j].id != s.letters[k].id)
    && (forall id | 0 <= id < |s.ledger| && s.ledger[id].status == Exhausted && s.ledger[id].durable in s.deadLetters ::
          HasLetter(s.letters, id))
  }

  function Upto(n: nat): (ids: seq<nat>)
    ensures |ids| == n
    ensures forall i | 0 <= i < n :: ids[i] == i
  {
    seq(n, i => i)
  }

  /** The fan-outs popped for their first attempt, in the order they were popped. */
  function FirstPops(history: seq<HistoryItem>): seq<nat> {
    if history == [] then []
    else
      FirstPops(history[..|history| - 1])
      + match history[|history| - 1]
        case Popped(id, attempt, _) => if attempt == 1 then [id] else []
        case Rescheduled(_, _, _, _) => []
  }

  /** The fan-outs queued for their first attempt, in queue order. */
  function FirstPending(pending: seq<Scheduled>): seq<nat> {
    if pending == [] then []
    else (if pending[0].attempt == 1 then [pending[0].id] else []) + FirstPending(pending[1..])
  }

  /** First attempts leave the queue in the order the fan-outs entered it. */
  ghost predicate InOrder(s: State) {
    && FirstPops(s.history) + FirstPending(s.pending) == Upto(|s.ledger|)
    && forall i | 0 <= i < |s.pending| && s.pending[i].attempt == 1 :: s.pending[i].dueAt <= s.now
  }

  /** The attempts at which a fan-out was popped, oldest first. */
  function AttemptsOf(history: seq<HistoryItem>, id: nat): seq<nat> {
    if history == [] then []
    else
      AttemptsOf(history[..|history| - 1], id)
      + match history[|history| - 1]
        case Popped(popped, attempt, _) => if popped == id then [attempt] else []
        case Rescheduled(_, _, _, _) => []
  }

  function OneTo(n: nat): (attempts: seq<nat>)
    ensures |attempts| == n
    ensures forall i | 0 <= i < n :: attempts[i] == i + 1
  {
    seq(n, i => i + 1)
  }

  /** Every fan-out has been popped at attempts 1, 2, 3, ... with none skipped or repeated. */
  ghost predicate Consecutive(s: State) {
    forall id: nat :: InTurn(s.history, s.ledger, id)
  }

  ghost predicate InTurn(history: seq<HistoryItem>, ledger: seq<FanOut>, id: nat) {
    AttemptsOf(history, id) == if id < |ledger| then OneTo(Used(ledger[id])) else []
  }

  /** A retry of this attempt was asked for among the first `n` items, and is due no later than `dueAt`. */
  ghost predicate AskedFor(history: seq<HistoryItem>, n: nat, id: nat, attempt: nat, dueAt: nat) {
    exists k | 0 <= k < n && k < |history| ::
      match history[k]
      case Popped(_, _, _) => false
      case Rescheduled(asked, next, at, delay) =>
        asked == id && next == attempt && SaturatingAdd(at, delay) <= dueAt
  }

  /** No retry is popped before its delay has passed since it was asked for. */
  ghost predicate Timed(s: State) {
    && (forall i | 0 <= i < |s.pending| && s.pending[i].attempt > 1 ::
          AskedFor(s.history, |s.history|, s.pending[i].id, s.pending[i].attempt, s.pending[i].dueAt))
    && (forall j | 0 <= j < |s.history| && s.history[j].Popped? && s.history[j].attempt > 1 ::
          AskedFor(s.history, j, s.history[j].id, s.history[j].attempt, s.history[j].at))
  }

  ghost predicate Inv(s: State) {
    Sorted(s.consumers) && Known(s) && Queued(s) && Counted(s) && Lettered(s) && InOrder(s) && Consecutive(s) && Timed(s)
  }

  lemma {:induction false} HistoryGrows(history: seq<HistoryItem>, item: HistoryItem, id: nat)
    ensures AttemptsOf(history + [item], id) ==
            AttemptsOf(history, id) + if item.Popped? && item.id == id then [item.attempt] else []
    ensures FirstPops(history + [item]) ==
            FirstPops(history) + if item.Popped? && item.attempt == 1 then [item.id] else []
  {
    assert (history + [item])[..|history|] == history;
  }

  lemma {:induction false} OneToNext(n: nat)
    ensures OneTo(n + 1) == OneTo(n) + [n + 1]
  {}

  /** Replacing one entry moves its durable's count by the change in what the entry used. */
  lemma {:induction false} CountsFollow(s: State, t: State, id: nat, f: FanOut)
    requires Counted(s) && id < |s.ledger| && f.durable == s.ledger[id].durable && t.ledger == s.ledger[id := f]
    requires forall durable ::
               Deliveries(t, durable) + (if durable == f.durable then Used(s.ledger[id]) else 0) ==
               Deliveries(s, durable) + if durable == f.durable then Used(f) else 0
    ensures Counted(t)
  {
    forall durable: Str
      ensures Deliveries(t, durable) == Spent(t.ledger, durable)
    {
      SpentUpdate(s.ledger, id, f, durable);
      assert Deliveries(s, durable) == Spent(s.ledger, durable);
    }
  }

  /** Replacing one entry keeps the attempts of the others. */
  lemma {:induction false} AttemptsFollow(s: State, t: State, id: nat, f: FanOut)
    requires Consecutive(s) && id < |s.ledger| && t.ledger == s.ledger[id := f]
    requires forall other: nat | other != id :: AttemptsOf(t.history, other) == AttemptsOf(s.history, other)
    requires AttemptsOf(t.history, id) == OneTo(Used(f))
    ensures Consecutive(t)
  {
    forall other: nat
      ensures InTurn(t.history, t.ledger, other)
    {
      assert InTurn(s.history, s.ledger, other);
    }
  }

  // ----- registering a consumer

  lemma {:induction false} FindInCons(first: Consumer, rest: seq<Consumer>, durable: Str)
    ensures Registered([first] + rest, durable) <==> first.durable == durable || Registered(rest, durable)
    ensures first.durable == durable ==> Find([first] + rest, durable) == first
    ensures first.durable != durable && Registered(rest, durable) ==> Find([first] + rest, durable) == Find(rest, durable)
  {
    assert ([first] + rest)[1..] == rest;
  }

  lemma {:induction false} InsertKeepsOthers(consumers: seq<Consumer>, c: Consumer, durable: Str)
    requires !Registered(consumers, c.durable)
    ensures Registered(Insert(consumers, c), durable) <==> Registered(consumers, durable) || durable == c.durable
    ensures Registered(consumers, durable) ==> Find(Insert(consumers, c), durable) == Find(consumers, durable)
    ensures Registered(Insert(consumers, c), c.durable) && Find(Insert(consumers, c), c.durable) == c
  {
    hide Position;
    hide Registered;
    hide Find;
    if consumers == [] || StrLess(c.durable, consumers[0].durable) {
      FindInCons(c, consumers, durable);
      FindInCons(c, consumers, c.durable);
    } else {
      var head, tail := consumers[0], consumers[1..];
      assert consumers == [head] + tail;
      FindInCons(head, tail, durable);
      FindInCons(head, tail, c.durable);
      InsertKeepsOthers(tail, c, durable);
      FindInCons(head, Insert(tail, c), durable);
      FindInCons(head, Insert(tail, c), c.durable);
    }
  }

  lemma {:induction false} InsertStaysSorted(consumers: seq<Consumer>, c: Consumer)
    requires Sorted(consumers) && !Registered(consumers, c.durable)
    ensures Sorted(Insert(consumers, c))
    ensures forall x | x in Insert(consumers, c) :: x == c || x in consumers
  {
    if consumers != [] {
      var head, tail := consumers[0], consumers[1..];
      StrLessTotal(c.durable, head.durable);
      if StrLess(c.durable, head.durable) {
        forall j | 0 <= j < |consumers|
          ensures StrLess(c.durable, consumers[j].durable)
        {
          if j > 0 {
            StrLessTransitive(c.durable, head.durable, consumers[j].durable);
          }
        }
      } else {
        assert head.durable != c.durable;
        InsertStaysSorted(tail, c);
        assert forall x | x in tail :: StrLess(head.durable, x.durable);
      }
    }
  }

  lemma {:induction false} RegisterKeeps(s: State, c: Consumer)
    requires Inv(s) && RegisteredWith(s, c).Ok?
    ensures Inv(RegisteredWith(s, c).value)
  {
    InsertStaysSorted(s.consumers, c);
    var t := RegisteredWith(s, c).value;
    forall id | 0 <= id < |t.ledger|
      ensures KnownFanOut(t.consumers, t.ledger[id])
    {
      InsertKeepsOthers(s.consumers, c, t.ledger[id].durable);
    }
    assert forall durable :: Deliveries(t, durable) == Deliveries(s, durable);
  }

  // ----- queueing a fan-out

  lemma {:induction false} FirstPendingConcat(a: seq<Scheduled>, b: seq<Scheduled>)
    ensures FirstPending(a + b) == FirstPending(a) + FirstPending(b)
  {
    if a == [] {
      assert a + b == b;
    } else {
      var head, rest := if a[0].attempt == 1 then [a[0].id] else [], a[1..];
      FirstPendingConcat(rest, b);
      assert (a + b)[0] == a[0] && (a + b)[1..] == rest + b;
      Regroup(head, FirstPending(rest), FirstPending(b));
    }
  }

  lemma {:induction false} EnqueueKeepsFirsts(s: State, durable: Str, message: Message)
    requires InOrder(s)
    ensures InOrder(Enqueue(s, durable, message))
  {
    var t := Enqueue(s, durable, message);
    var added := [Scheduled(|s.ledger|, durable, message, 1, s.now)];
    FirstPendingConcat(s.pending, added);
    assert FirstPending(added) == [|s.ledger|];
    assert Upto(|t.ledger|) == Upto(|s.ledger|) + [|s.ledger|];
  }

  lemma {:induction false} EnqueueKeepsAttempts(s: State, durable: Str, message: Message)
    requires Consecutive(s) && Timed(s)
    ensures
      var t := Enqueue(s, durable, message);
      Consecutive(t) && Timed(t)
  {
    var t := Enqueue(s, durable, message);
    forall id: nat
      ensures InTurn(t.history, t.ledger, id)
    {
      assert InTurn(s.history, s.ledger, id);
    }
  }

  lemma {:induction false} EnqueueKeepsQueue(s: State, durable: Str, message: Message)
    requires Queued(s)
    ensures Queued(Enqueue(s, durable, message))
  {
    var t := Enqueue(s, durable, message);
    assert t.pending[|s.pending|].id == |s.ledger|;
    forall id | 0 <= id < |t.ledger| && t.ledger[id].status == Pending
      ensures InQueue(t.pending, id)
    {
      if id < |s.ledger| {
        var i :| 0 <= i < |s.pending| && s.pending[i].id == id;
        assert t.pending[i].id == id;
      }
    }
  }

  lemma {:induction false} EnqueueKeepsLetters(s: State, durable: Str, message: Message)
    requires Lettered(s)
    ensures Lettered(Enqueue(s, durable, message))
  {}

  lemma {:induction false} EnqueueKeeps(s: State, durable: Str, message: Message)
    requires Inv(s) && Registered(s.consumers, durable)
    ensures Inv(Enqueue(s, durable, message))
  {
    var t := Enqueue(s, durable, message);
    EnqueueKeepsQueue(s, durable, message);
    EnqueueKeepsLetters(s, durable, message);
    EnqueueKeepsFirsts(s, durable, message);
    EnqueueKeepsAttempts(s, durable, message);
    forall d: Str
      ensures Deliveries(t, d) == Spent(t.ledger, d)
    {
      SpentAppend(s.ledger, FanOut(durable, message, 1, Pending), d);
      assert Deliveries(s, d) == Spent(s.ledger, d);
    }
  }

  lemma {:induction false} EnqueueAllKeeps(s: State, durables: seq<Str>, message: Message)
    requires Inv(s) && forall d | d in durables :: Registered(s.consumers, d)
    ensures Inv(EnqueueAll(s, durables, message))
    decreases durables
  {
    if durables != [] {
      EnqueueKeeps(s, durables[0], message);
      EnqueueAllKeeps(Enqueue(s, durables[0], message), durables[1..], message);
    }
  }

  lemma {:induction false} FanOutToRegistered(consumers: seq<Consumer>, streams: seq<Stream>, subject: Str, durable: Str)
    ensures durable in FanOutTo(consumers, streams, subject) ==> Registered(consumers, durable)
  {
    if consumers != [] {
      FanOutToRegistered(consumers[1..], streams, subject, durable);
    }
  }

  lemma {:induction false} PublishKeeps(s: State, message: Message)
    requires Inv(s) && Published(s, message).Ok?
    ensures Inv(Published(s, message).value)
  {
    var durables := FanOutTo(s.consumers, s.streams, message.subject);
    forall d | d in durables
      ensures Registered(s.consumers, d)
    {
      FanOutToRegistered(s.consumers, s.streams, message.subject, d);
    }
    EnqueueAllKeeps(s, durables, message);
  }

  // ----- popping a delivery

  lemma {:induction false} NoFirstPending(pending: seq<Scheduled>)
    requires forall i | 0 <= i < |pending| :: pending[i].attempt != 1
    ensures FirstPending(pending) == []
  {
    if pending != [] {
      NoFirstPending(pending[1..]);
    }
  }

  /** Removing one queued delivery; when it is a first attempt, no other first attempt stood before it. */
  lemma {:induction false} FirstPendingWithout(pending: seq<Scheduled>, i: nat)
    requires i < |pending|
    requires pending[i].attempt == 1 ==> forall j | 0 <= j < i :: pending[j].attempt != 1
    ensures FirstPending(pending) ==
            (if pending[i].attempt == 1 then [pending[i].id] else []) + FirstPending(pending[..i] + pending[i + 1..])
  {
    var front, back := pending[..i], pending[i + 1..];
    assert pending == front + ([pending[i]] + back);
    FirstPendingConcat(front, [pending[i]] + back);
    FirstPendingConcat([pending[i]], back);
    FirstPendingConcat(front, back);
    assert FirstPending([pending[i]]) == if pending[i].attempt == 1 then [pending[i].id] else [];
    if pending[i].attempt == 1 {
      NoFirstPending(front);
    }
  }

  lemma {:induction false} PopKeepsFirsts(s: State, i: nat)
    requires InOrder(s) && Numbered(s) && i == FirstDue(s.pending, s.now) && i < |s.pending|
    ensures InOrder(Pop(s, i))
  {
    var t := Pop(s, i);
    var d := s.pending[i];
    FirstPendingWithout(s.pending, i);
    HistoryGrows(s.history, Popped(d.id, d.attempt, s.now), d.id);
    forall j | 0 <= j < |t.pending| && t.pending[j].attempt == 1
      ensures t.pending[j].dueAt <= t.now
    {
      assert t.pending[j] == s.pending[if j < i then j else j + 1];
    }
  }

  lemma {:induction false} PopKeepsAttempts(s: State, i: nat)
    requires Consecutive(s) && i < |s.pending|
    requires s.pending[i].id < |s.ledger| && s.ledger[s.pending[i].id] == Entry(s.pending[i], Pending)
    requires s.pending[i].attempt >= 1
    ensures Consecutive(Pop(s, i))
  {
    hide AttemptsOf, OneTo;
    var d := s.pending[i];
    var t := Pop(s, i);
    var item := Popped(d.id, d.attempt, s.now);
    assert t.history == s.history + [item];
    forall other: nat
      ensures AttemptsOf(t.history, other) == AttemptsOf(s.history, other) + if d.id == other then [d.attempt] else []
    {
      HistoryGrows(s.history, item, other);
    }
    OneToNext(d.attempt - 1);
    assert InTurn(s.history, s.ledger, d.id);
    AttemptsFollow(s, t, d.id, Entry(d, Held));
  }

  lemma {:induction false} AskedForMore(history: seq<HistoryItem>, item: HistoryItem, n: nat, id: nat, attempt: nat, dueAt: nat)
    requires AskedFor(history, n, id, attempt, dueAt) && n <= |history|
    ensures AskedFor(history + [item], n, id, attempt, dueAt)
    ensures AskedFor(history + [item], n + 1, id, attempt, dueAt)
  {
    var k :| 0 <= k < n &&
      match history[k]
      case Popped(_, _, _) => false
      case Rescheduled(asked, next, at, delay) => asked == id && next == attempt && SaturatingAdd(at, delay) <= dueAt;
    assert (history + [item])[k] == history[k];
  }

  lemma {:induction false} AskedForLater(history: seq<HistoryItem>, n: nat, id: nat, attempt: nat, dueAt: nat, later: nat)
    requires AskedFor(history, n, id, attempt, dueAt) && dueAt <= later
    ensures AskedFor(history, n, id, attempt, later)
  {
    var k :| 0 <= k < n && k < |history| &&
      match history[k]
      case Popped(_, _, _) => false
      case Rescheduled(asked, next, at, delay) => asked == id && next == attempt && SaturatingAdd(at, delay) <= dueAt;
    assert history[k].Rescheduled?;
  }

  lemma {:induction false} PopKeepsTime(s: State, i: nat)
    requires Timed(s) && Numbered(s) && i == FirstDue(s.pending, s.now) && i < |s.pending|
    ensures Timed(Pop(s, i))
  {
    var t := Pop(s, i);
    var d := s.pending[i];
    var item := Popped(d.id, d.attempt, s.now);
    forall j | 0 <= j < |t.pending| && t.pending[j].attempt > 1
      ensures AskedFor(t.history, |t.history|, t.pending[j].id, t.pending[j].attempt, t.pending[j].dueAt)
    {
      var j0 := if j < i then j else j + 1;
      assert t.pending[j] == s.pending[j0];
      AskedForMore(s.history, item, |s.history|, t.pending[j].id, t.pending[j].attempt, t.pending[j].dueAt);
    }
    forall j | 0 <= j < |t.history| && t.history[j].Popped? && t.history[j].attempt > 1
      ensures AskedFor(t.history, j, t.history[j].id, t.history[j].attempt, t.history[j].at)
    {
      if j < |s.history| {
        AskedForMore(s.history, item, j, t.history[j].id, t.history[j].attempt, t.history[j].at);
      } else {
        AskedForMore(s.history, item, |s.history|, d.id, d.attempt, d.dueAt);
        AskedForLater(t.history, j, d.id, d.attempt, d.dueAt, s.now);
      }
    }
  }

  lemma {:induction false} InQueueWithout(pending: seq<Scheduled>, i: nat, id: nat)
    requires i < |pending| && pending[i].id != id && InQueue(pending, id)
    ensures InQueue(pending[..i] + pending[i + 1..], id)
  {
    var j :| 0 <= j < |pending| && pending[j].id == id;
    assert (pending[..i] + pending[i + 1..])[if j < i then j else j - 1].id == id;
  }

  lemma {:induction false} PopKeepsQueue(s: State, i: nat)
    requires Queued(s) && i < |s.pending|
    ensures Queued(Pop(s, i))
  {
    var t := Pop(s, i);
    forall j | 0 <= j < |t.pending|
      ensures t.pending[j] == s.pending[if j < i then j else j + 1]
    {}
    forall id | 0 <= id < |t.ledger| && t.ledger[id].status == Pending
      ensures InQueue(t.pending, id)
    {
      assert InQueue(s.pending, id);
      InQueueWithout(s.pending, i, id);
    }
  }

  lemma {:induction false} PopKeepsLetters(s: State, i: nat)
    requires Lettered(s) && i < |s.pending| && s.pending[i].id < |s.ledger|
    requires s.ledger[s.pending[i].id].status == Pending
    ensures Lettered(Pop(s, i))
  {}

  lemma {:induction false} PopKeepsCounts(s: State, i: nat)
    requires Known(s) && Counted(s) && i < |s.pending|
    requires s.pending[i].id < |s.ledger| && s.ledger[s.pending[i].id] == Entry(s.pending[i], Pending)
    ensures Known(Pop(s, i)) && Counted(Pop(s, i))
  {
    var d := s.pending[i];
    assert KnownFanOut(s.consumers, s.ledger[d.id]);
    CountsFollow(s, Pop(s, i), d.id, Entry(d, Held));
  }

  lemma {:induction false} PopKeeps(s: State, i: nat)
    requires Inv(s) && i == FirstDue(s.pending, s.now) && i < |s.pending|
    ensures Numbered(s) && Inv(Pop(s, i)) && Holds(Pop(s, i), s.pending[i])
  {
    assert s.ledger[s.pending[i].id] == Entry(s.pending[i], Pending);
    assert KnownFanOut(s.consumers, s.ledger[s.pending[i].id]);
    PopKeepsQueue(s, i);
    PopKeepsLetters(s, i);
    PopKeepsFirsts(s, i);
    PopKeepsAttempts(s, i);
    PopKeepsTime(s, i);
    PopKeepsCounts(s, i);
  }

  // ----- completing a held delivery

  /** A held fan-out reaching an end keeps what it used up. */
  lemma {:induction false} SettleKeepsCounts(s: State, d: Scheduled, status: Status)
    requires Known(s) && Counted(s) && Consecutive(s) && Holds(s, d) && status != Pending && status != Held
    ensures
      var t := Settle(s, d, status);
      Known(t) && Counted(t) && Consecutive(t)
  {
    var t := Settle(s, d, status);
    assert KnownFanOut(s.consumers, s.ledger[d.id]);
    CountsFollow(s, t, d.id, Entry(d, status));
    assert InTurn(s.history, s.ledger, d.id);
    AttemptsFollow(s, t, d.id, Entry(d, status));
  }

  lemma {:induction false} SettleKeepsQueue(s: State, d: Scheduled, status: Status)
    requires Queued(s) && Holds(s, d) && status != Pending && status != Held
    ensures Queued(Settle(s, d, status))
  {
    var t := Settle(s, d, status);
    forall id | 0 <= id < |t.ledger| && t.ledger[id].status == Pending
      ensures InQueue(t.pending, id)
    {
      assert s.ledger[id].status == Pending;
    }
  }

  lemma {:induction false} SettleKeeps(s: State, d: Scheduled, status: Status)
    requires Inv(s) && Holds(s, d) && (status == Acked || status == Terminated)
    ensures Inv(Settle(s, d, status))
  {
    SettleKeepsCounts(s, d, status);
    SettleKeepsQueue(s, d, status);
  }

  lemma BuryHasLetter(s: State, d: Scheduled, id: nat)
    requires d.id < |s.ledger|
    ensures HasLetter(s.letters, id) ==> HasLetter(Bury(s, d).letters, id)
    ensures d.durable in s.deadLetters ==> HasLetter(Bury(s, d).letters, d.id)
  {
    var t := Bury(s, d);
    if HasLetter(s.letters, id) {
      var k :| 0 <= k < |s.letters| && s.letters[k].id == id;
      assert t.letters[k].id == id;
    }
    if d.durable in s.deadLetters {
      assert t.letters[|s.letters|].id == d.id;
    }
  }

  lemma {:induction false} BuryKeepsLetters(s: State, d: Scheduled)
    requires Lettered(s) && Holds(s, d)
    ensures Lettered(Bury(s, d))
  {
    hide HasLetter;
    var t := Bury(s, d);
    forall id | 0 <= id < |t.ledger| && t.ledger[id].status == Exhausted && t.ledger[id].durable in t.deadLetters
      ensures HasLetter(t.letters, id)
    {
      BuryHasLetter(s, d, id);
    }
  }

  lemma {:induction false} BuryKeeps(s: State, d: Scheduled)
    requires Inv(s) && Holds(s, d)
    ensures Inv(Bury(s, d))
  {
    SettleKeepsCounts(s, d, Exhausted);
    SettleKeepsQueue(s, d, Exhausted);
    BuryKeepsLetters(s, d);
    var t := Bury(s, d);
    assert Counted(t) by {
      assert forall durable :: Deliveries(t, durable) == Deliveries(Settle(s, d, Exhausted), durable);
    }
  }

  lemma {:induction false} RescheduleKeepsFirsts(s: State, d: Scheduled, delay: nat)
    requires InOrder(s) && Holds(s, d) && d.attempt >= 1
    ensures InOrder(Reschedule(s, d, delay))
  {
    var next := Again(s, d, delay);
    HistoryGrows(s.history, Rescheduled(d.id, next.attempt, s.now, delay), d.id);
    FirstPendingConcat(s.pending, [next]);
    assert FirstPending([next]) == [];
  }

  lemma {:induction false} RescheduleKeepsCounts(s: State, d: Scheduled, delay: nat)
    requires Known(s) && Counted(s) && Consecutive(s) && Holds(s, d) && Registered(s.consumers, d.durable)
    requires d.attempt < Find(s.consumers, d.durable).maxDeliver
    ensures
      var t := Reschedule(s, d, delay);
      Known(t) && Counted(t) && Consecutive(t)
  {
    var t := Reschedule(s, d, delay);
    var next := Again(s, d, delay);
    var item := Rescheduled(d.id, next.attempt, s.now, delay);
    CountsFollow(s, t, d.id, Entry(next, Pending));
    forall other: nat
      ensures AttemptsOf(s.history + [item], other) == AttemptsOf(s.history, other)
    {
      HistoryGrows(s.history, item, other);
    }
    assert InTurn(s.history, s.ledger, d.id);
    AttemptsFollow(s, t, d.id, Entry(next, Pending));
  }

  lemma {:induction false} RescheduleKeepsTime(s: State, d: Scheduled, delay: nat)
    requires Timed(s) && Holds(s, d)
    ensures Timed(Reschedule(s, d, delay))
  {
    var t := Reschedule(s, d, delay);
    var item := Rescheduled(d.id, d.attempt + 1, s.now, delay);
    forall j | 0 <= j < |t.pending| && t.pending[j].attempt > 1
      ensures AskedFor(t.history, |t.history|, t.pending[j].id, t.pending[j].attempt, t.pending[j].dueAt)
    {
      if j < |s.pending| {
        AskedForMore(s.history, item, |s.history|, t.pending[j].id, t.pending[j].attempt, t.pending[j].dueAt);
      } else {
        assert t.history[|s.history|] == item;
      }
    }
    forall j | 0 <= j < |t.history| && t.history[j].Popped? && t.history[j].attempt > 1
      ensures AskedFor(t.history, j, t.history[j].id, t.history[j].attempt, t.history[j].at)
    {
      AskedForMore(s.history, item, j, t.history[j].id, t.history[j].attempt, t.history[j].at);
    }
  }

  lemma {:induction false} RescheduleKeepsQueue(s: State, d: Scheduled, delay: nat)
    requires Queued(s) && Holds(s, d)
    ensures Queued(Reschedule(s, d, delay))
  {
    var t := Reschedule(s, d, delay);
    forall id | 0 <= id < |t.ledger| && t.ledger[id].status == Pending
      ensures InQueue(t.pending, id)
    {
      if id == d.id {
        assert t.pending[|s.pending|].id == id;
      } else {
        var i :| 0 <= i < |s.pending| && s.pending[i].id == id;
        assert t.pending[i].id == id;
      }
    }
  }

  lemma {:induction false} RescheduleKeepsLetters(s: State, d: Scheduled, delay: nat)
    requires Lettered(s) && Holds(s, d)
    ensures Lettered(Reschedule(s, d, delay))
  {}

  lemma {:induction false} RescheduleKeeps(s: State, d: Scheduled, delay: nat)
    requires Inv(s) && Holds(s, d) && Registered(s.consumers, d.durable)
    requires d.attempt < Find(s.consumers, d.durable).maxDeliver
    ensures Inv(Reschedule(s, d, delay))
  {
    HeldIsRegistered(s, d);
    RescheduleKeepsQueue(s, d, delay);
    RescheduleKeepsLetters(s, d, delay);
    RescheduleKeepsFirsts(s, d, delay);
    RescheduleKeepsCounts(s, d, delay);
    RescheduleKeepsTime(s, d, delay);
  }

  lemma {:induction false} HeldIsRegistered(s: State, d: Scheduled)
    requires Known(s) && Holds(s, d)
    ensures Registered(s.consumers, d.durable) && 1 <= d.attempt <= Cap(Find(s.consumers, d.durable))
  {
    assert KnownFanOut(s.consumers, s.ledger[d.id]);
  }

  lemma {:induction false} RetryKeeps(s: State, d: Scheduled, delay: nat)
    requires Inv(s) && Holds(s, d) && Registered(s.consumers, d.durable)
    ensures Inv(Retried(s, d, delay))
  {
    if d.attempt >= Find(s.consumers, d.durable).maxDeliver {
      BuryKeeps(s, d);
    } else {
      RescheduleKeeps(s, d, delay);
    }
  }

  lemma {:induction false} CompleteKeeps(s: State, d: Scheduled, action: Action)
    requires Inv(s) && Holds(s, d) && Registered(s.consumers, d.durable)
    ensures Inv(Completed(s, d, action))
  {
    match action
    case Ack => SettleKeeps(s, d, Acked);
    case Term => SettleKeeps(s, d, Terminated);
    case Nack => RetryKeeps(s, d, 0);
    case NackAfter(delay) => RetryKeeps(s, d, delay);
  }

  // ----- the clock and the planned timeouts

  lemma {:induction false} SameCounts(s: State, t: State)
    requires Inv(s) && s.now <= t.now && t == s.(now := t.now, timeoutNext := t.timeoutNext)
    ensures Inv(t)
  {
    assert forall durable :: Deliveries(t, durable) == Deliveries(s, durable);
  }

  // ----- whole runs

  /** One use of the simulator by its owner. */
  datatype Step =
    | Register(consumer: Consumer)
    | Publish(message: Message)
    | NextDue
    | Complete(delivery: Scheduled, action: Action)
    | CompleteTimeout(delivery: Scheduled)
    | TimeoutNext(durable: Str)
    | ConsumeTimeout(durable: Str)
    | AdvanceClock(duration: nat)

  /** The step's effect; completing a delivery that is not held is not a step of any run. */
  ghost function Apply(s: State, step: Step): State {
    match step
    case Register(c) => if RegisteredWith(s, c).Ok? then RegisteredWith(s, c).value else s
    case Publish(message) => if Published(s, message).Ok? then Published(s, message).value else s
    case NextDue =>
      var i := FirstDue(s.pending, s.now);
      if i < |s.pending| && s.pending[i].id < |s.ledger| then Pop(s, i) else s
    case Complete(d, action) =>
      if Holds(s, d) && Registered(s.consumers, d.durable) then Completed(s, d, action) else s
    case CompleteTimeout(d) => if Holds(s, d) && Registered(s.consumers, d.durable) then TimedOut(s, d) else s
    case TimeoutNext(durable) => s.(timeoutNext := s.timeoutNext + [durable])
    case ConsumeTimeout(durable) => TimeoutConsumed(s, durable).0
    case AdvanceClock(duration) => s.(now := SaturatingAdd(s.now, duration))
  }

  ghost function Run(s: State, steps: seq<Step>): State
    decreases steps
  {
    if steps == [] then s else Run(Apply(s, steps[0]), steps[1..])
  }

  /** The clock never passes the largest duration. */
  ghost predicate ClockInRange(s: State) {
    s.now <= MAX_DURATION
  }

  lemma {:induction false} QuietStepKeeps(s: State, step: Step)
    requires Inv(s) && ClockInRange(s)
    requires step.TimeoutNext? || step.ConsumeTimeout? || step.AdvanceClock?
    ensures Inv(Apply(s, step)) && ClockInRange(Apply(s, step))
  {
    SameCounts(s, Apply(s, step));
  }

  lemma {:induction false} CompletionKeeps(s: State, step: Step)
    requires Inv(s) && ClockInRange(s)
    requires step.Complete? || step.CompleteTimeout?
    ensures Inv(Apply(s, step)) && ClockInRange(Apply(s, step))
  {
    hide Inv;
    var d := step.delivery;
    if Holds(s, d) && Registered(s.consumers, d.durable) {
      if step.Complete? {
        CompleteKeeps(s, d, step.action);
      } else {
        RetryKeeps(s, d, TimeoutDelay(Find(s.consumers, d.durable), d.attempt));
      }
    }
  }

  lemma {:induction false} StepKeeps(s: State, step: Step)
    requires Inv(s) && ClockInRange(s)
    ensures Inv(Apply(s, step)) && ClockInRange(Apply(s, step))
  {
    hide Inv;
    match step
    case Register(c) =>
      if RegisteredWith(s, c).Ok? {
        RegisterKeeps(s, c);
      }
    case Publish(message) =>
      if Published(s, message).Ok? {
        PublishKeeps(s, message);
        EnqueueAllKeepsClock(s, FanOutTo(s.consumers, s.streams, message.subject), message);
      }
    case NextDue =>
      var i := FirstDue(s.pending, s.now);
      if i < |s.pending| {
        PopKeeps(s, i);
      }
    case Complete(_, _) => CompletionKeeps(s, step);
    case CompleteTimeout(_) => CompletionKeeps(s, step);
    case TimeoutNext(_) => QuietStepKeeps(s, step);
    case ConsumeTimeout(_) => QuietStepKeeps(s, step);
    case AdvanceClock(_) => QuietStepKeeps(s, step);
  }

  lemma {:induction false} EnqueueAllKeepsClock(s: State, durables: seq<Str>, message: Message)
    ensures EnqueueAll(s, durables, message).now == s.now
    decreases durables
  {
    if durables != [] {
      EnqueueAllKeepsClock(Enqueue(s, durables[0], message), durables[1..], message);
    }
  }

  lemma {:induction false} RunKeepsFrom(s: State, steps: seq<Step>)
    requires Inv(s) && ClockInRange(s)
    ensures Inv(Run(s, steps))
    decreases steps
  {
    if steps != [] {
      StepKeeps(s, steps[0]);
      RunKeepsFrom(Apply(s, steps[0]), steps[1..]);
    }
  }

  lemma InitialHolds(streams: seq<Stream>, deadLetters: map<Str, Str>)
    ensures Inv(Initial(streams, deadLetters)) && ClockInRange(Initial(streams, deadLetters))
  {
    hide AttemptsOf, FirstPops;
    EmptyHistory();
  }

  lemma EmptyHistory()
    ensures FirstPops([]) == [] && forall id: nat :: AttemptsOf([], id) == []
  {}

  /** Every run of the simulator keeps the whole invariant. */
  lemma {:induction false} RunKeeps(streams: seq<Stream>, deadLetters: map<Str, Str>, steps: seq<Step>)
    ensures Inv(Run(Initial(streams, deadLetters), steps))
  {
    InitialHolds(streams, deadLetters);
    hide Inv, Run;
    RunKeepsFrom(Initial(streams, deadLetters), steps);
  }

  // ----- what the invariant says of every run

  function Copies(pending: seq<Scheduled>, id: nat): nat {
    if pending == [] then 0 else (if pending[0].id == id then 1 else 0) + Copies(pending[1..], id)
  }

  lemma {:induction false} CopiesOfAbsent(pending: seq<Scheduled>, id: nat)
    requires !InQueue(pending, id)
    ensures Copies(pending, id) == 0
  {
    if pending != [] {
      assert pending[0].id != id;
      forall i | 0 <= i < |pending[1..]|
        ensures pending[1..][i].id != id
      {
        assert pending[1..][i] == pending[i + 1];
      }
      CopiesOfAbsent(pending[1..], id);
    }
  }

  lemma {:induction false} CopiesOfPresent(pending: seq<Scheduled>, id: nat)
    requires InQueue(pending, id) && forall i, j | 0 <= i < j < |pending| :: pending[i].id != pending[j].id
    ensures Copies(pending, id) == 1
  {
    var i :| 0 <= i < |pending| && pending[i].id == id;
    if i == 0 {
      assert forall j | 0 <= j < |pending[1..]| :: pending[1..][j] == pending[j + 1];
      CopiesOfAbsent(pending[1..], id);
    } else {
      assert pending[1..][i - 1].id == id;
      CopiesOfPresent(pending[1..], id);
    }
  }

  lemma OneMore(cap: nat, n: nat)
    ensures cap * (n + 1) == cap * n + cap
  {}

  lemma {:induction false} SpentBounded(ledger: seq<FanOut>, durable: Str, cap: nat)
    requires forall f | f in ledger && f.durable == durable :: Used(f) <= cap
    ensures Spent(ledger, durable) <= cap * Enqueued(ledger, durable)
  {
    hide Used;
    if ledger != [] {
      assert ledger[0] in ledger && forall f | f in ledger[1..] :: f in ledger;
      SpentBounded(ledger[1..], durable, cap);
      OneMore(cap, Enqueued(ledger[1..], durable));
    }
  }

  lemma {:induction false} SpentWithinCap(ledger: seq<FanOut>, consumers: seq<Consumer>, durable: Str)
    requires forall id | 0 <= id < |ledger| :: KnownFanOut(consumers, ledger[id])
    requires Registered(consumers, durable)
    ensures Spent(ledger, durable) <= Cap(Find(consumers, durable)) * Enqueued(ledger, durable)
  {
    hide Position, Spent, Enqueued;
    forall f | f in ledger && f.durable == durable
      ensures Used(f) <= Cap(Find(consumers, durable))
    {
      var id :| 0 <= id < |ledger| && ledger[id] == f;
      assert KnownFanOut(consumers, ledger[id]);
    }
    SpentBounded(ledger, durable, Cap(Find(consumers, durable)));
  }

  /** Conservation over whole runs: a fan-out is queued exactly once while it is pending and not at all
      once it is held, acked, terminated or exhausted; the delivery counter of a durable is the sum over
      its fan-outs of the attempt, less one for those still pending; and so it never exceeds the cap
      times the number of messages fanned out to it. */
  lemma {:induction false} LedgerOverRuns(streams: seq<Stream>, deadLetters: map<Str, Str>, steps: seq<Step>)
    ensures
      var s := Run(Initial(streams, deadLetters), steps);
      && (forall id: nat | id < |s.ledger| ::
            Copies(s.pending, id) == if s.ledger[id].status == Pending then 1 else 0)
      && (forall durable :: Deliveries(s, durable) == Spent(s.ledger, durable))
      && (forall durable | Registered(s.consumers, durable) ::
            Deliveries(s, durable) <= Cap(Find(s.consumers, durable)) * Enqueued(s.ledger, durable))
  {
    var s := Run(Initial(streams, deadLetters), steps);
    RunKeeps(streams, deadLetters, steps);
    forall id: nat | id < |s.ledger|
      ensures Copies(s.pending, id) == if s.ledger[id].status == Pending then 1 else 0
    {
      if s.ledger[id].status == Pending {
        CopiesOfPresent(s.pending, id);
      } else {
        CopiesOfAbsent(s.pending, id);
      }
    }
    forall durable | Registered(s.consumers, durable)
      ensures Deliveries(s, durable) <= Cap(Find(s.consumers, durable)) * Enqueued(s.ledger, durable)
    {
      SpentWithinCap(s.ledger, s.consumers, durable);
    }
  }

  /** Order over whole runs: the fan-outs popped for the first time are 0, 1, 2, ... in the order they
      were queued; the attempts of each fan-out are 1, 2, 3, ...; and a retry is never popped before the
      time it was asked for plus its delay, capped at the largest duration. */
  lemma {:induction false} OrderOverRuns(streams: seq<Stream>, deadLetters: map<Str, Str>, steps: seq<Step>)
    ensures
      var s := Run(Initial(streams, deadLetters), steps);
      && FirstPops(s.history) <= Upto(|s.ledger|)
      && (forall id: nat | id < |s.ledger| :: AttemptsOf(s.history, id) == OneTo(Used(s.ledger[id])))
      && (forall j | 0 <= j < |s.history| && s.history[j].Popped? && s.history[j].attempt > 1 ::
            AskedFor(s.history, j, s.history[j].id, s.history[j].attempt, s.history[j].at))
  {
    var s := Run(Initial(streams, deadLetters), steps);
    RunKeeps(streams, deadLetters, steps);
    forall id: nat | id < |s.ledger|
      ensures AttemptsOf(s.history, id) == OneTo(Used(s.ledger[id]))
    {
      assert InTurn(s.history, s.ledger, id);
    }
  }

  // ----- when an attempt that was not acknowledged comes again

  /** From item `base` of the history on, no attempt `attempt` of the fan-out was popped before `due`; if it is
      still queued it is not due earlier, and it will not be queued again. */
  ghost predicate NotBefore(s: State, base: nat, id: nat, attempt: nat, due: nat) {
    && id < |s.ledger| && s.ledger[id].attempt >= attempt
    && (forall i | 0 <= i < |s.pending| && s.pending[i].id == id && s.pending[i].attempt == attempt :: s.pending[i].dueAt >= due)
    && (forall j | base <= j < |s.history| && s.history[j].Popped? && s.history[j].id == id && s.history[j].attempt == attempt ::
          s.history[j].at >= due)
  }

  lemma {:induction false} EnqueueAllNotBefore(s: State, durables: seq<Str>, message: Message, base: nat, id: nat, attempt: nat, due: nat)
    requires NotBefore(s, base, id, attempt, due)
    ensures NotBefore(EnqueueAll(s, durables, message), base, id, attempt, due)
    decreases durables
  {
    if durables != [] {
      EnqueueAllNotBefore(Enqueue(s, durables[0], message), durables[1..], message, base, id, attempt, due);
    }
  }

  lemma PublishedNotBefore(s: State, message: Message, base: nat, id: nat, attempt: nat, due: nat)
    requires NotBefore(s, base, id, attempt, due)
    ensures Published(s, message).Ok? ==> NotBefore(Published(s, message).value, base, id, attempt, due)
  {
    hide NotBefore, FanOutTo;
    EnqueueAllNotBefore(s, FanOutTo(s.consumers, s.streams, message.subject), message, base, id, attempt, due);
  }

  lemma RetriedNotBefore(s: State, d: Scheduled, delay: nat, base: nat, id: nat, attempt: nat, due: nat)
    requires NotBefore(s, base, id, attempt, due) && Holds(s, d) && Registered(s.consumers, d.durable)
    ensures NotBefore(Retried(s, d, delay), base, id, attempt, due)
  {}

  lemma CompletedNotBefore(s: State, d: Scheduled, action: Action, base: nat, id: nat, attempt: nat, due: nat)
    requires NotBefore(s, base, id, attempt, due) && Holds(s, d) && Registered(s.consumers, d.durable)
    ensures NotBefore(Completed(s, d, action), base, id, attempt, due)
  {
    hide Position, Retried;
    match action
    case Nack => RetriedNotBefore(s, d, 0, base, id, attempt, due);
    case NackAfter(delay) => RetriedNotBefore(s, d, delay, base, id, attempt, due);
    case _ =>
  }

  lemma PopNotBefore(s: State, base: nat, id: nat, attempt: nat, due: nat, i: nat)
    requires NotBefore(s, base, id, attempt, due) && Queued(s) && i == FirstDue(s.pending, s.now) && i < |s.pending|
    ensures Numbered(s) && NotBefore(Pop(s, i), base, id, attempt, due)
  {
    var t, d := Pop(s, i), s.pending[i];
    assert s.ledger[d.id] == Entry(d, Pending);
    forall j | 0 <= j < |t.pending| && t.pending[j].id == id && t.pending[j].attempt == attempt
      ensures t.pending[j].dueAt >= due
    {
      assert t.pending[j] == s.pending[if j < i then j else j + 1];
    }
    forall j | base <= j < |t.history| && t.history[j].Popped? && t.history[j].id == id && t.history[j].attempt == attempt
      ensures t.history[j].at >= due
    {
      assert j < |s.history| ==> t.history[j] == s.history[j];
    }
  }

  lemma StepNotBefore(s: State, step: Step, base: nat, id: nat, attempt: nat, due: nat)
    requires Queued(s) && NotBefore(s, base, id, attempt, due)
    ensures NotBefore(Apply(s, step), base, id, attempt, due)
  {
    hide Queued, Completed, Retried, Pop, Holds, Find, FirstDue, TimeoutDelay, FanOutTo, EnqueueAll, Published;
    match step
    case Register(_) =>
    case Publish(message) =>
      PublishedNotBefore(s, message, base, id, attempt, due);
    case NextDue =>
      if FirstDue(s.pending, s.now) < |s.pending| {
        PopNotBefore(s, base, id, attempt, due, FirstDue(s.pending, s.now));
      }
    case Complete(d, action) =>
      if Holds(s, d) && Registered(s.consumers, d.durable) {
        CompletedNotBefore(s, d, action, base, id, attempt, due);
      }
    case CompleteTimeout(d) =>
      if Holds(s, d) && Registered(s.consumers, d.durable) {
        RetriedNotBefore(s, d, TimeoutDelay(Find(s.consumers, d.durable), d.attempt), base, id, attempt, due);
      }
    case _ =>
  }

  lemma InvHoldsQueue(s: State)
    requires Inv(s)
    ensures Queued(s)
  {}

  lemma {:induction false} RunNotBefore(s: State, steps: seq<Step>, base: nat, id: nat, attempt: nat, due: nat)
    requires Inv(s) && ClockInRange(s) && NotBefore(s, base, id, attempt, due)
    ensures NotBefore(Run(s, steps), base, id, attempt, due)
    decreases steps
  {
    hide Inv, NotBefore, Apply;
    if steps != [] {
      StepKeeps(s, steps[0]);
      InvHoldsQueue(s);
      StepNotBefore(s, steps[0], base, id, attempt, due);
      RunNotBefore(Apply(s, steps[0]), steps[1..], base, id, attempt, due);
    }
  }

  /** How long a delivery that was not acknowledged has to wait for its next attempt: no time after a Nack, the
      time that was asked for after a Nack with a delay, and after a missed acknowledgement of attempt `k` the
      k-th entry of the backoff, or the ack wait once the backoff is used up. */
  function WaitAfter(c: Consumer, step: Step): nat
    requires (step.Complete? && (step.action.Nack? || step.action.NackAfter?)) || (step.CompleteTimeout? && step.delivery.attempt >= 1)
  {
    match step
    case Complete(_, Nack) => 0
    case Complete(_, NackAfter(delay)) => delay
    case CompleteTimeout(d) => if d.attempt <= |c.backoff| then c.backoff[d.attempt - 1] else c.ackWait
  }

  /** A step by which a delivery was not acknowledged but may be delivered again. */
  predicate AsksAgain(s: State, step: Step) {
    && (step.CompleteTimeout? || (step.Complete? && (step.action.Nack? || step.action.NackAfter?)))
    && Holds(s, step.delivery)
  }

  /** Whatever keeps attempt `k` of a message from being acknowledged, in every state of every run: if the
      consumer allows another attempt, attempt `k + 1` is queued, due after exactly the wait that this calls for,
      and no run pops it earlier; otherwise nothing is queued. The clock saturates. */
  lemma RetryComesInTime(streams: seq<Stream>, deadLetters: map<Str, Str>, before: seq<Step>, step: Step, after: seq<Step>)
    requires AsksAgain(Run(Initial(streams, deadLetters), before), step)
    ensures
      var s, d := Run(Initial(streams, deadLetters), before), step.delivery;
      && Registered(s.consumers, d.durable) && d.attempt >= 1
      && var c := Find(s.consumers, d.durable);
         if d.attempt >= c.maxDeliver then Apply(s, step).pending == s.pending
         else
           var due := if s.now + WaitAfter(c, step) <= MAX_DURATION then s.now + WaitAfter(c, step) else MAX_DURATION;
           && Apply(s, step).pending == s.pending + [Scheduled(d.id, d.durable, d.message, d.attempt + 1, due)]
           && NotBefore(Run(Apply(s, step), after), |s.history|, d.id, d.attempt + 1, due)
  {
    hide Run, Apply, NotBefore, Inv, WaitAfter;
    InitialHolds(streams, deadLetters);
    RunKeepsClock(Initial(streams, deadLetters), before);
    var s, d := Run(Initial(streams, deadLetters), before), step.delivery;
    HeldInRun(s, d);
    var c := Find(s.consumers, d.durable);
    RetryIsQueued(s, step, c);
    if d.attempt < c.maxDeliver {
      StepKeeps(s, step);
      var due := SaturatingAdd(s.now, WaitAfter(c, step));
      RunNotBefore(Apply(s, step), after, |s.history|, d.id, d.attempt + 1, due);
    }
  }

  lemma HeldInRun(s: State, d: Scheduled)
    requires Inv(s) && Holds(s, d)
    ensures Registered(s.consumers, d.durable) && 1 <= d.attempt && d.id < |s.ledger|
    ensures forall i | 0 <= i < |s.pending| :: s.pending[i].id != d.id
  {
    HeldIsRegistered(s, d);
  }

  lemma RetryIsQueued(s: State, step: Step, c: Consumer)
    requires AsksAgain(s, step) && step.delivery.attempt >= 1
    requires Registered(s.consumers, step.delivery.durable) && c == Find(s.consumers, step.delivery.durable)
    requires forall i | 0 <= i < |s.pending| :: s.pending[i].id != step.delivery.id
    ensures
      var d, due, t := step.delivery, SaturatingAdd(s.now, WaitAfter(c, step)), Apply(s, step);
      if d.attempt >= c.maxDeliver then t.pending == s.pending
      else
        && t.pending == s.pending + [Scheduled(d.id, d.durable, d.message, d.attempt + 1, due)]
        && NotBefore(t, |s.history|, d.id, d.attempt + 1, due)
  {
    hide Position, Find;
  }

  lemma {:induction false} RunKeepsClock(s: State, steps: seq<Step>)
    requires Inv(s) && ClockInRange(s)
    ensures Inv(Run(s, steps)) && ClockInRange(Run(s, steps))
    decreases steps
  {
    hide Inv, ClockInRange, Apply;
    if steps != [] {
      StepKeeps(s, steps[0]);
      RunKeepsClock(Apply(s, steps[0]), steps[1..]);
    }
  }

  // ----- after an Ack or a Term

  /** The fan-out has reached its end: it is not queued, nothing from item `base` of the history on popped it or
      asked for it again, and it has no dead letter. */
  ghost predicate Over(s: State, base: nat, id: nat) {
    && id < |s.ledger| && (s.ledger[id].status == Acked || s.ledger[id].status == Terminated)
    && (forall i | 0 <= i < |s.pending| :: s.pending[i].id != id)
    && (forall j | base <= j < |s.history| :: s.history[j].id != id)
    && !HasLetter(s.letters, id)
  }

  lemma {:induction false} EnqueueAllStaysOver(s: State, durables: seq<Str>, message: Message, base: nat, id: nat)
    requires Over(s, base, id)
    ensures Over(EnqueueAll(s, durables, message), base, id)
    decreases durables
  {
    if durables != [] {
      EnqueueAllStaysOver(Enqueue(s, durables[0], message), durables[1..], message, base, id);
    }
  }

  lemma PublishedStaysOver(s: State, message: Message, base: nat, id: nat)
    requires Over(s, base, id)
    ensures Published(s, message).Ok? ==> Over(Published(s, message).value, base, id)
  {
    hide Over, FanOutTo;
    EnqueueAllStaysOver(s, FanOutTo(s.consumers, s.streams, message.subject), message, base, id);
  }

  lemma PopStaysOver(s: State, base: nat, id: nat, i: nat)
    requires Over(s, base, id) && i < |s.pending| && s.pending[i].id < |s.ledger|
    ensures Over(Pop(s, i), base, id)
  {
    var t := Pop(s, i);
    assert forall j | 0 <= j < |t.pending| :: t.pending[j] == s.pending[if j < i then j else j + 1];
  }

  lemma RetriedStaysOver(s: State, d: Scheduled, delay: nat, base: nat, id: nat)
    requires Over(s, base, id) && Holds(s, d) && Registered(s.consumers, d.durable)
    ensures Over(Retried(s, d, delay), base, id)
  {
    hide Position, Find;
    assert d.id != id;
  }

  lemma CompletedStaysOver(s: State, d: Scheduled, action: Action, base: nat, id: nat)
    requires Over(s, base, id) && Holds(s, d) && Registered(s.consumers, d.durable)
    ensures Over(Completed(s, d, action), base, id)
  {
    hide Position, Retried;
    assert d.id != id;
    match action
    case Nack => RetriedStaysOver(s, d, 0, base, id);
    case NackAfter(delay) => RetriedStaysOver(s, d, delay, base, id);
    case _ =>
  }

  lemma StepStaysOver(s: State, step: Step, base: nat, id: nat)
    requires Over(s, base, id)
    ensures Over(Apply(s, step), base, id)
  {
    hide Completed, Retried, Pop, Holds, Find, TimeoutDelay, FanOutTo, EnqueueAll, Published, HasLetter;
    match step
    case Register(_) =>
    case Publish(message) => PublishedStaysOver(s, message, base, id);
    case NextDue =>
      var i := FirstDue(s.pending, s.now);
      if i < |s.pending| && s.pending[i].id < |s.ledger| {
        PopStaysOver(s, base, id, i);
      }
    case Complete(d, action) =>
      if Holds(s, d) && Registered(s.consumers, d.durable) {
        CompletedStaysOver(s, d, action, base, id);
      }
    case CompleteTimeout(d) =>
      if Holds(s, d) && Registered(s.consumers, d.durable) {
        RetriedStaysOver(s, d, TimeoutDelay(Find(s.consumers, d.durable), d.attempt), base, id);
      }
    case _ =>
  }

  lemma {:induction false} RunStaysOver(s: State, steps: seq<Step>, base: nat, id: nat)
    requires Over(s, base, id)
    ensures Over(Run(s, steps), base, id)
    decreases steps
  {
    hide Over, Apply;
    if steps != [] {
      StepStaysOver(s, steps[0], base, id);
      RunStaysOver(Apply(s, steps[0]), steps[1..], base, id);
    }
  }

  lemma SettlingIsOver(s: State, d: Scheduled, action: Action)
    requires Inv(s) && Holds(s, d) && Registered(s.consumers, d.durable) && (action == Ack || action == Term)
    ensures Over(Completed(s, d, action), |s.history|, d.id)
  {
    HeldInRun(s, d);
  }

  /** An Ack or a Term is the end of a message for its consumer, in every state of every run: whatever happens
      afterwards it is never queued, delivered or asked for again, and it never becomes a dead letter. */
  lemma SettledIsOver(streams: seq<Stream>, deadLetters: map<Str, Str>, before: seq<Step>, d: Scheduled, action: Action, after: seq<Step>)
    requires Holds(Run(Initial(streams, deadLetters), before), d) && (action == Ack || action == Term)
    ensures
      var s := Run(Initial(streams, deadLetters), before);
      Over(Run(Apply(s, Complete(d, action)), after), |s.history|, d.id)
  {
    hide Inv, Over, Run, Completed, Position;
    RunKeeps(streams, deadLetters, before);
    var s := Run(Initial(streams, deadLetters), before);
    HeldInRun(s, d);
    SettlingIsOver(s, d, action);
    assert Apply(s, Complete(d, action)) == Completed(s, d, action);
    RunStaysOver(Apply(s, Complete(d, action)), after, |s.history|, d.id);
  }

  // ----- what is registered and published

  /** Which registrations are refused, and why: first those whose stream is not declared, then those whose
      durable is taken. */
  lemma {:induction false} RegistrationRefusedExactly(s: State, c: Consumer)
    ensures
      var r := RegisteredWith(s, c);
      var declared := exists stream :: stream in s.streams && stream.name == c.stream;
      var taken := exists other :: other in s.consumers && other.durable == c.durable;
      && (r == Err(UnknownStream(c.stream)) <==> !declared)
      && (r == Err(DuplicateDurable(c.durable)) <==> declared && taken)
      && (r.Ok? <==> declared && !taken)
      && (r.Ok? ==> r.value == s.(consumers := r.value.consumers)
                    && forall other :: other in r.value.consumers <==> other == c || other in s.consumers)
  {
    hide Insert;
    if exists stream :: stream in s.streams && stream.name == c.stream {
      var stream :| stream in s.streams && stream.name == c.stream;
      var i :| 0 <= i < |s.streams| && s.streams[i] == stream;
    }
    if exists other :: other in s.consumers && other.durable == c.durable {
      var other :| other in s.consumers && other.durable == c.durable;
      var i :| 0 <= i < |s.consumers| && s.consumers[i] == other;
    }
    InsertHolds(s.consumers, c);
  }

  lemma {:induction false} InsertHolds(consumers: seq<Consumer>, c: Consumer)
    ensures forall other :: other in Insert(consumers, c) <==> other == c || other in consumers
  {
    if consumers != [] && !StrLess(c.durable, consumers[0].durable) {
      InsertHolds(consumers[1..], c);
    }
  }

  /** A publish is accepted exactly if some pattern of some stream matches the subject. */
  lemma PublishAcceptedExactly(s: State, message: Message)
    ensures Published(s, message).Ok? <==>
            exists stream, pattern :: stream in s.streams && pattern in stream.subjects && Matches(Split(pattern), Split(message.subject))
    ensures Published(s, message).Err? ==> Published(s, message).error == NoStream(message.subject)
  {
    hide Matches, Split, FanOutTo;
    if SomeStreamAccepts(s.streams, message.subject) {
      var i :| 0 <= i < |s.streams| && StreamAccepts(s.streams[i], message.subject);
      var k :| 0 <= k < |s.streams[i].subjects| && Accepts(s.streams[i].subjects[k], message.subject);
      var stream := s.streams[i];
      assert stream in s.streams && stream.subjects[k] in stream.subjects && Matches(Split(stream.subjects[k]), Split(message.subject));
    }
    forall stream, pattern | stream in s.streams && pattern in stream.subjects && Matches(Split(pattern), Split(message.subject))
      ensures SomeStreamAccepts(s.streams, message.subject)
    {
      assert Accepts(pattern, message.subject);
      var k :| 0 <= k < |stream.subjects| && stream.subjects[k] == pattern;
      var i :| 0 <= i < |s.streams| && s.streams[i] == stream;
      assert StreamAccepts(s.streams[i], message.subject);
    }
  }

  /** What a publish queues: for each durable that it fans out to, in order, a first attempt that is due at once;
      it changes nothing else. */
  lemma {:induction false} EnqueueAllQueues(s: State, durables: seq<Str>, message: Message)
    ensures
      var t := EnqueueAll(s, durables, message);
      && |t.pending| == |s.pending| + |durables| && t.pending[..|s.pending|] == s.pending
      && (forall k | 0 <= k < |durables| ::
            t.pending[|s.pending| + k] == Scheduled(|s.ledger| + k, durables[k], message, 1, s.now))
      && t == s.(pending := t.pending, ledger := t.ledger)
    decreases durables
  {
    if durables != [] {
      var s1 := Enqueue(s, durables[0], message);
      EnqueueAllQueues(s1, durables[1..], message);
      var t := EnqueueAll(s, durables, message);
      forall k | 0 <= k < |durables|
        ensures t.pending[|s.pending| + k] == Scheduled(|s.ledger| + k, durables[k], message, 1, s.now)
      {
        if k == 0 {
          assert t.pending[..|s1.pending|][|s.pending|] == s1.pending[|s.pending|];
        } else {
          assert t.pending[|s1.pending| + (k - 1)] == Scheduled(|s1.ledger| + (k - 1), durables[1..][k - 1], message, 1, s.now);
        }
      }
      assert t.pending[..|s.pending|] == t.pending[..|s1.pending|][..|s.pending|];
    }
  }

  /** The fan-outs one publish queues for these durables. */
  ghost function NewFanOuts(durables: seq<Str>, message: Message): (fanOuts: seq<FanOut>)
    ensures |fanOuts| == |durables|
    ensures forall i | 0 <= i < |durables| :: fanOuts[i] == FanOut(durables[i], message, 1, Pending)
  {
    seq(|durables|, i requires 0 <= i < |durables| => FanOut(durables[i], message, 1, Pending))
  }

  lemma {:induction false} EnqueueAllAppends(s: State, durables: seq<Str>, message: Message)
    ensures EnqueueAll(s, durables, message).ledger == s.ledger + NewFanOuts(durables, message)
    decreases durables
  {
    if durables != [] {
      EnqueueAllAppends(Enqueue(s, durables[0], message), durables[1..], message);
    }
  }

  ghost predicate Ascending(durables: seq<Str>) {
    forall i, j | 0 <= i < j < |durables| :: StrLess(durables[i], durables[j])
  }

  lemma {:induction false} FanOutToSorted(consumers: seq<Consumer>, streams: seq<Stream>, subject: Str)
    requires Sorted(consumers)
    ensures Ascending(FanOutTo(consumers, streams, subject))
    ensures forall d :: d in FanOutTo(consumers, streams, subject) <==>
                        exists i | 0 <= i < |consumers| :: consumers[i].durable == d && Wants(consumers[i], streams, subject)
  {
    if consumers != [] {
      FanOutToSorted(consumers[1..], streams, subject);
      var rest := FanOutTo(consumers[1..], streams, subject);
      forall d | d in rest
        ensures StrLess(consumers[0].durable, d)
      {
        var i :| 0 <= i < |consumers[1..]| && consumers[1..][i].durable == d;
        assert consumers[i + 1].durable == d;
      }
      assert Ascending([consumers[0].durable] + rest);
      forall d
        ensures d in FanOutTo(consumers, streams, subject) <==>
                exists i | 0 <= i < |consumers| :: consumers[i].durable == d && Wants(consumers[i], streams, subject)
      {
        if d in rest {
          var i :| 0 <= i < |consumers[1..]| && consumers[1..][i].durable == d && Wants(consumers[1..][i], streams, subject);
          assert consumers[i + 1].durable == d && Wants(consumers[i + 1], streams, subject);
        }
        if exists i | 0 <= i < |consumers| :: consumers[i].durable == d && Wants(consumers[i], streams, subject) {
          var i :| 0 <= i < |consumers| && consumers[i].durable == d && Wants(consumers[i], streams, subject);
          if i > 0 {
            assert consumers[1..][i - 1] == consumers[i];
          }
        }
      }
    }
  }

  /** One publish numbers its fan-outs consecutively, one for each consumer that wants the subject and in
      the order of their durables. */
  lemma {:induction false} PublishFansOut(s: State, message: Message)
    requires Inv(s) && Published(s, message).Ok?
    ensures
      var durables := FanOutTo(s.consumers, s.streams, message.subject);
      && Published(s, message).value.ledger == s.ledger + NewFanOuts(durables, message)
      && Ascending(durables)
      && forall d :: d in durables <==>
                     exists i | 0 <= i < |s.consumers| ::
                       s.consumers[i].durable == d && Wants(s.consumers[i], s.streams, message.subject)
  {
    EnqueueAllAppends(s, FanOutTo(s.consumers, s.streams, message.subject), message);
    FanOutToSorted(s.consumers, s.streams, message.subject);
  }
}
