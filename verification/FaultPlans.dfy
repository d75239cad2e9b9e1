/** The shared deque of planned transport faults (nats-micro-testing/src/lib.rs), and the independent
    queues it behaves as: one for every operation and subject. */
module FaultPlans {
  import opened Text

  datatype FaultOperation = Request | Publish

  datatype TransportError = NatsRequestFailed | Timeout | NoResponders | Disconnected | StartupError | TransportFault

  datatype Key = Key(operation: FaultOperation, subject: Str)

  datatype PlannedFault = PlannedFault(key: Key, error: TransportError)

  /** The abstract view of the deque: the errors planned for one key, oldest first. */
  function Queue(planned: seq<PlannedFault>, key: Key): seq<TransportError> {
    if planned == [] then []
    else if planned[0].key == key then [planned[0].error] + Queue(planned[1..], key)
    else Queue(planned[1..], key)
  }

  lemma {:induction false} QueueConcat(a: seq<PlannedFault>, b: seq<PlannedFault>, key: Key)
    ensures Queue(a + b, key) == Queue(a, key) + Queue(b, key)
  {
    if a == [] {
      assert a + b == b;
    } else {
      QueueConcat(a[1..], b, key);
      assert (a + b)[1..] == a[1..] + b;
    }
  }

  lemma {:induction false} QueueOfOthers(a: seq<PlannedFault>, key: Key)
    requires forall f | f in a :: f.key != key
    ensures Queue(a, key) == []
  {
    if a != [] {
      QueueOfOthers(a[1..], key);
    }
  }

  lemma {:induction false} QueueWithout(front: seq<PlannedFault>, fault: PlannedFault, back: seq<PlannedFault>, key: Key)
    ensures Queue(front + back, key) == Queue(front, key) + Queue(back, key)
    ensures Queue(front + [fault] + back, key) ==
            Queue(front, key) + (if fault.key == key then [fault.error] else []) + Queue(back, key)
  {
    assert front + [fault] + back == front + ([fault] + back);
    QueueConcat(front, [fault] + back, key);
    QueueConcat(front, back, key);
    assert ([fault] + back)[1..] == back;
  }

  /** Where the oldest fault of a key stands in the deque, or its length. */
  function Position(planned: seq<PlannedFault>, key: Key): (index: nat)
    ensures index <= |planned|
    ensures forall i | 0 <= i < index :: planned[i].key != key
    ensures index < |planned| ==> planned[index].key == key
  {
    if planned == [] || planned[0].key == key then 0 else 1 + Position(planned[1..], key)
  }

  /** The answer to a use of a key, and the deque it leaves. */
  function Consumed(planned: seq<PlannedFault>, key: Key): (Option<TransportError>, seq<PlannedFault>) {
    var index := Position(planned, key);
    if index == |planned| then (None, planned)
    else (Some(planned[index].error), planned[..index] + planned[index + 1..])
  }

  /** A use takes the oldest fault of its own key, and leaves every other key's queue alone. */
  lemma {:induction false} ConsumedPopsOneQueue(planned: seq<PlannedFault>, used: Key, key: Key)
    ensures
      var (fault, left) := Consumed(planned, used);
      if key != used then Queue(left, key) == Queue(planned, key)
      else match fault
           case None => Queue(planned, key) == [] && left == planned
           case Some(error) => Queue(planned, key) == [error] + Queue(left, key)
  {
    var index := Position(planned, used);
    if index == |planned| {
      QueueOfOthers(planned, used);
    } else {
      var front, back := planned[..index], planned[index + 1..];
      assert planned == front + [planned[index]] + back;
      QueueWithout(front, planned[index], back, key);
      if key == used {
        QueueOfOthers(front, key);
      }
    }
  }

  class FaultPlan {
    var planned: seq<PlannedFault>

    constructor ()
      ensures planned == []
    {
      planned := [];
    }

    /** `push`, behind `timeout_next`, `no_responders_for` and `fail_next_publish`. */
    method Push(operation: FaultOperation, subject: Str, error: TransportError)
      modifies this
      ensures planned == old(planned) + [PlannedFault(Key(operation, subject), error)]
    {
      planned := planned + [PlannedFault(Key(operation, subject), error)];
    }

    /** `consume`, behind `before_request` and `before_publish`. */
    method Consume(operation: FaultOperation, subject: Str) returns (fault: Option<TransportError>)
      modifies this
      ensures (fault, planned) == Consumed(old(planned), Key(operation, subject))
    {
      var key := Key(operation, subject);
      var index := 0;
      while index < |planned| && planned[index].key != key
        invariant 0 <= index <= |planned|
        invariant forall i | 0 <= i < index :: planned[i].key != key
      {
        index := index + 1;
      }
      assert index == Position(planned, key);
      if index == |planned| {
        return None;
      }
      fault := Some(planned[index].error);
      planned := planned[..index] + planned[index + 1..];
    }

    /** `pending`. */
    function Pending(): nat
      reads this
    {
      |planned|
    }

    /** `clear`. */
    method Clear()
      modifies this
      ensures forall key :: Queue(planned, key) == []
      ensures Pending() == 0
    {
      planned := [];
    }
  }

  /** The sum of the queue lengths over the listed keys. */
  function TotalLength(planned: seq<PlannedFault>, keys: seq<Key>): nat {
    if keys == [] then 0 else |Queue(planned, keys[0])| + TotalLength(planned, keys[1..])
  }

  lemma {:induction false} TotalWithoutHead(planned: seq<PlannedFault>, keys: seq<Key>)
    requires planned != []
    requires forall i, j | 0 <= i < j < |keys| :: keys[i] != keys[j]
    ensures TotalLength(planned, keys) ==
            TotalLength(planned[1..], keys) + if planned[0].key in keys then 1 else 0
  {
    if keys != [] {
      TotalWithoutHead(planned, keys[1..]);
      assert planned[0].key in keys <==> planned[0].key == keys[0] || planned[0].key in keys[1..];
    }
  }

  /** The deque holds each queue once: its length is the sum of the queue lengths over any duplicate-free
      list of the keys in use. */
  lemma {:induction false} PendingIsSumOfQueues(planned: seq<PlannedFault>, keys: seq<Key>)
    requires forall i, j | 0 <= i < j < |keys| :: keys[i] != keys[j]
    requires forall f | f in planned :: f.key in keys
    ensures |planned| == TotalLength(planned, keys)
    decreases planned
  {
    if planned == [] {
      NothingPlanned(keys);
    } else {
      PendingIsSumOfQueues(planned[1..], keys);
      TotalWithoutHead(planned, keys);
    }
  }

  lemma {:induction false} NothingPlanned(keys: seq<Key>)
    ensures TotalLength([], keys) == 0
  {
    if keys != [] {
      NothingPlanned(keys[1..]);
    }
  }

  /** One use of the plan, as the tests interleave them. */
  datatype Call = Plan(fault: PlannedFault) | Use(key: Key)

  /** The independent queues, one per key. */
  type Queues = Key -> seq<TransportError>

  /** What the call answers when every key has its own first-in first-out queue. */
  function Answer(queues: Queues, call: Call): Option<TransportError> {
    match call
    case Plan(_) => None
    case Use(key) => if queues(key) == [] then None else Some(queues(key)[0])
  }

  function After(queues: Queues, call: Call): Queues {
    match call
    case Plan(fault) => (key: Key) => if key == fault.key then queues(key) + [fault.error] else queues(key)
    case Use(used) => (key: Key) => if key == used && queues(key) != [] then queues(key)[1..] else queues(key)
  }

  /** What independent queues answer to a whole interleaving of plans and uses. */
  function Answers(queues: Queues, calls: seq<Call>): seq<Option<TransportError>> {
    if calls == [] then [] else [Answer(queues, calls[0])] + Answers(After(queues, calls[0]), calls[1..])
  }

  /** What the shared deque answers to the same calls. */
  function SharedAnswers(planned: seq<PlannedFault>, calls: seq<Call>): seq<Option<TransportError>>
    decreases calls
  {
    if calls == [] then []
    else
      match calls[0]
      case Plan(fault) => [None] + SharedAnswers(planned + [fault], calls[1..])
      case Use(key) =>
        var (fault, left) := Consumed(planned, key);
        [fault] + SharedAnswers(left, calls[1..])
  }

  /** The shared deque refines independent first-in first-out queues, over every interleaving. */
  lemma {:induction false} SharedDequeRefinesQueues(planned: seq<PlannedFault>, queues: Queues, calls: seq<Call>)
    requires forall key :: queues(key) == Queue(planned, key)
    ensures SharedAnswers(planned, calls) == Answers(queues, calls)
    decreases calls
  {
    if calls != [] {
      var next := After(queues, calls[0]);
      match calls[0]
      case Plan(fault) =>
        forall key
          ensures next(key) == Queue(planned + [fault], key)
        {
          QueueConcat(planned, [fault], key);
          assert [fault][1..] == [];
        }
        SharedDequeRefinesQueues(planned + [fault], next, calls[1..]);
      case Use(used) =>
        var left := Consumed(planned, used).1;
        forall key
          ensures next(key) == Queue(left, key)
        {
          ConsumedPopsOneQueue(planned, used, key);
        }
        ConsumedPopsOneQueue(planned, used, used);
        SharedDequeRefinesQueues(left, next, calls[1..]);
    }
  }
}
