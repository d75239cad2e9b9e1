/** Startup validation of a service list: a validator that inserts into maps
    (nats-micro/src/app/services.rs) against the pairwise compile-time check that `application!`
    emits for the same list (nats-micro-macros/src/application.rs). */
module ServiceSets {
  import opened Text

  datatype Operation = Operation(subject: Str, rustName: Str)

  datatype ConsumerDecl = ConsumerDecl(stream: Str, durable: Str, rustName: Str)

  datatype ServiceSpec = ServiceSpec(name: Str, operations: seq<Operation>, consumers: seq<ConsumerDecl>)

  /** Who declared a key: the service's name and the member's Rust name. */
  datatype Member = Member(service: Str, rustName: Str)

  datatype StartError =
    | DuplicateSubject(subject: Str, earlier: Member, later: Member)
    | DuplicateConsumer(stream: Str, durable: Str, earlier: Member, later: Member)

  datatype Entry<K> = Entry(key: K, member: Member)

  function OperationEntries(s: ServiceSpec): (entries: seq<Entry<Str>>)
    ensures |entries| == |s.operations|
    ensures forall i | 0 <= i < |entries| ::
              entries[i] == Entry(s.operations[i].subject, Member(s.name, s.operations[i].rustName))
  {
    seq(|s.operations|, i requires 0 <= i < |s.operations| =>
      Entry(s.operations[i].subject, Member(s.name, s.operations[i].rustName)))
  }

  function ConsumerEntries(s: ServiceSpec): (entries: seq<Entry<(Str, Str)>>)
    ensures |entries| == |s.consumers|
    ensures forall i | 0 <= i < |entries| ::
              entries[i] == Entry((s.consumers[i].stream, s.consumers[i].durable), Member(s.name, s.consumers[i].rustName))
  {
    seq(|s.consumers|, i requires 0 <= i < |s.consumers| =>
      Entry((s.consumers[i].stream, s.consumers[i].durable), Member(s.name, s.consumers[i].rustName)))
  }

  function AllOperations(services: seq<ServiceSpec>): seq<Entry<Str>> {
    if services == [] then [] else OperationEntries(services[0]) + AllOperations(services[1..])
  }

  function AllConsumers(services: seq<ServiceSpec>): seq<Entry<(Str, Str)>> {
    if services == [] then [] else ConsumerEntries(services[0]) + AllConsumers(services[1..])
  }

  ghost predicate Distinct<K>(entries: seq<Entry<K>>) {
    forall i, j | 0 <= i < j < |entries| :: entries[i].key != entries[j].key
  }

  ghost predicate Apart<K>(a: seq<Entry<K>>, b: seq<Entry<K>>) {
    forall i, j | 0 <= i < |a| && 0 <= j < |b| :: a[i].key != b[j].key
  }

  /** Two entries share `key`, and the error names both of them, the earlier one first. */
  ghost predicate Clash<K>(entries: seq<Entry<K>>, key: K, earlier: Member, later: Member) {
    exists i, j | 0 <= i < j < |entries| :: entries[i] == Entry(key, earlier) && entries[j] == Entry(key, later)
  }

  /** The error reports a real clash among these declarations. */
  ghost predicate Witnessed(error: StartError, operations: seq<Entry<Str>>, consumers: seq<Entry<(Str, Str)>>) {
    match error
    case DuplicateSubject(subject, earlier, later) => Clash(operations, subject, earlier, later)
    case DuplicateConsumer(stream, durable, earlier, later) => Clash(consumers, (stream, durable), earlier, later)
  }

  /** A map that records exactly these entries. */
  ghost predicate Records<K>(m: map<K, Member>, entries: seq<Entry<K>>) {
    && (forall i | 0 <= i < |entries| :: entries[i].key in m && m[entries[i].key] == entries[i].member)
    && (forall key | key in m :: exists i | 0 <= i < |entries| :: entries[i].key == key)
  }

  lemma RecordsNext<K>(m: map<K, Member>, entries: seq<Entry<K>>, e: Entry<K>)
    requires Records(m, entries) && Distinct(entries) && e.key !in m
    ensures Records(m[e.key := e.member], entries + [e]) && Distinct(entries + [e])
  {
    var more := entries + [e];
    assert more[|entries|] == e;
    forall key | key in m
      ensures exists i | 0 <= i < |more| :: more[i].key == key
    {
      var i :| 0 <= i < |entries| && entries[i].key == key;
      assert more[i].key == key;
    }
  }

  /** Inserting a recorded key exposes the entry that recorded it, whatever declarations follow. */
  lemma RecordedClash<K>(m: map<K, Member>, entries: seq<Entry<K>>, e: Entry<K>, following: seq<Entry<K>>)
    requires Records(m, entries) && e.key in m
    ensures Clash(entries + [e] + following, e.key, m[e.key], e.member)
  {
    var all := entries + [e] + following;
    var i :| 0 <= i < |entries| && entries[i].key == e.key;
    assert all[i] == Entry(e.key, m[e.key]) && all[|entries|] == e;
  }

  class ServiceSetValidator {
    var operations: map<Str, Member>
    var consumers: map<(Str, Str), Member>
    ghost var seenOperations: seq<Entry<Str>>
    ghost var seenConsumers: seq<Entry<(Str, Str)>>

    ghost predicate Valid()
      reads this
    {
      && Records(operations, seenOperations) && Distinct(seenOperations)
      && Records(consumers, seenConsumers) && Distinct(seenConsumers)
    }

    constructor ()
      ensures Valid() && seenOperations == [] && seenConsumers == []
    {
      operations, consumers := map[], map[];
      seenOperations, seenConsumers := [], [];
    }

    /** The first loop of `add`. */
    method AddOperations(service: ServiceSpec) returns (r: Result<(), StartError>)
      requires Valid()
      modifies this`operations, this`seenOperations
      ensures r.Ok? ==> Valid() && seenOperations == old(seenOperations) + OperationEntries(service)
      ensures r.Err? ==>
                && r.error.DuplicateSubject?
                && Clash(old(seenOperations) + OperationEntries(service), r.error.subject, r.error.earlier, r.error.later)
    {
      hide Records, Distinct, Clash;
      ghost var entries := OperationEntries(service);
      for i := 0 to |service.operations|
        invariant Valid()
        invariant seenOperations == old(seenOperations) + entries[..i]
      {
        var operation := service.operations[i];
        var member := Member(service.name, operation.rustName);
        if operation.subject in operations {
          var other := operations[operation.subject];
          RecordedClash(operations, seenOperations, entries[i], entries[i + 1..]);
          assert seenOperations + [entries[i]] + entries[i + 1..] == old(seenOperations) + entries;
          operations := operations[operation.subject := member];
          return Err(DuplicateSubject(operation.subject, other, member));
        }
        RecordsNext(operations, seenOperations, entries[i]);
        operations := operations[operation.subject := member];
        seenOperations := seenOperations + [entries[i]];
      }
      assert entries[..|entries|] == entries;
      return Ok(());
    }

    /** The second loop of `add`. */
    method AddConsumers(service: ServiceSpec) returns (r: Result<(), StartError>)
      requires Valid()
      modifies this`consumers, this`seenConsumers
      ensures r.Ok? ==> Valid() && seenConsumers == old(seenConsumers) + ConsumerEntries(service)
      ensures r.Err? ==>
                && r.error.DuplicateConsumer?
                && Clash(old(seenConsumers) + ConsumerEntries(service), (r.error.stream, r.error.durable),
                         r.error.earlier, r.error.later)
    {
      hide Records, Distinct, Clash;
      ghost var entries := ConsumerEntries(service);
      for i := 0 to |service.consumers|
        invariant Valid()
        invariant seenConsumers == old(seenConsumers) + entries[..i]
      {
        var consumer := service.consumers[i];
        var key := (consumer.stream, consumer.durable);
        var member := Member(service.name, consumer.rustName);
        if key in consumers {
          var other := consumers[key];
          RecordedClash(consumers, seenConsumers, entries[i], entries[i + 1..]);
          assert seenConsumers + [entries[i]] + entries[i + 1..] == old(seenConsumers) + entries;
          consumers := consumers[key := member];
          return Err(DuplicateConsumer(consumer.stream, consumer.durable, other, member));
        }
        RecordsNext(consumers, seenConsumers, entries[i]);
        consumers := consumers[key := member];
        seenConsumers := seenConsumers + [entries[i]];
      }
      assert entries[..|entries|] == entries;
      return Ok(());
    }

    /** `add`: records a service, or reports the first of its members whose key is already taken. */
    method Add(service: ServiceSpec) returns (r: Result<(), StartError>)
      requires Valid()
      modifies this
      ensures r.Ok? ==>
                && Valid()
                && seenOperations == old(seenOperations) + OperationEntries(service)
                && seenConsumers == old(seenConsumers) + ConsumerEntries(service)
      ensures r.Err? ==>
                Witnessed(r.error, old(seenOperations) + OperationEntries(service),
                          old(seenConsumers) + ConsumerEntries(service))
    {
      r := AddOperations(service);
      if r.Ok? {
        r := AddConsumers(service);
      }
    }
  }

  /** `validate_all`, recursing over the service list. */
  method ValidateAll(services: seq<ServiceSpec>, validator: ServiceSetValidator) returns (r: Result<(), StartError>)
    requires validator.Valid()
    modifies validator
    ensures r.Ok? ==>
              && Distinct(old(validator.seenOperations) + AllOperations(services))
              && Distinct(old(validator.seenConsumers) + AllConsumers(services))
    ensures r.Err? ==>
              Witnessed(r.error, old(validator.seenOperations) + AllOperations(services),
                        old(validator.seenConsumers) + AllConsumers(services))
    decreases services
  {
    if services == [] {
      assert old(validator.seenOperations) + AllOperations(services) == validator.seenOperations;
      assert old(validator.seenConsumers) + AllConsumers(services) == validator.seenConsumers;
      return Ok(());
    }
    ghost var operations0, consumers0 := validator.seenOperations, validator.seenConsumers;
    ghost var head, tail := services[0], services[1..];
    assert operations0 + AllOperations(services) == operations0 + OperationEntries(head) + AllOperations(tail);
    assert consumers0 + AllConsumers(services) == consumers0 + ConsumerEntries(head) + AllConsumers(tail);
    r := validator.Add(services[0]);
    if r.Err? {
      WitnessedInMore(r.error, operations0 + OperationEntries(head), consumers0 + ConsumerEntries(head),
                      AllOperations(tail), AllConsumers(tail));
      return;
    }
    r := ValidateAll(services[1..], validator);
  }

  lemma WitnessedInMore(error: StartError, operations: seq<Entry<Str>>, consumers: seq<Entry<(Str, Str)>>,
                        moreOperations: seq<Entry<Str>>, moreConsumers: seq<Entry<(Str, Str)>>)
    requires Witnessed(error, operations, consumers)
    ensures Witnessed(error, operations + moreOperations, consumers + moreConsumers)
  {
    match error
    case DuplicateSubject(subject, earlier, later) => ClashInMore(operations, moreOperations, subject, earlier, later);
    case DuplicateConsumer(stream, durable, earlier, later) =>
      ClashInMore(consumers, moreConsumers, (stream, durable), earlier, later);
  }

  lemma ClashInMore<K>(entries: seq<Entry<K>>, more: seq<Entry<K>>, key: K, earlier: Member, later: Member)
    requires Clash(entries, key, earlier, later)
    ensures Clash(entries + more, key, earlier, later)
  {
    var i, j :| 0 <= i < j < |entries| && entries[i] == Entry(key, earlier) && entries[j] == Entry(key, later);
    assert (entries + more)[i] == entries[i] && (entries + more)[j] == entries[j];
  }

  /** `validate_service_set`: it accepts exactly the lists in which every service is consistent with
      itself and every pair passes `assert_services_compatible`, and a rejection names an earlier and a
      later member that really share the reported key. */
  method ValidateServiceSet(services: seq<ServiceSpec>) returns (r: Result<(), StartError>)
    ensures r.Ok? <==> PairwiseCompatible(services)
    ensures r.Err? ==> Witnessed(r.error, AllOperations(services), AllConsumers(services))
  {
    var validator := new ServiceSetValidator();
    assert [] + AllOperations(services) == AllOperations(services);
    assert [] + AllConsumers(services) == AllConsumers(services);
    r := ValidateAll(services, validator);
    DistinctIffPairwise(services);
  }

  ghost predicate SelfConsistent(s: ServiceSpec) {
    Distinct(OperationEntries(s)) && Distinct(ConsumerEntries(s))
  }

  /** No subject and no (stream, durable) pair is declared on both sides. */
  ghost predicate Compatible(left: ServiceSpec, right: ServiceSpec) {
    && (forall i, j | 0 <= i < |left.operations| && 0 <= j < |right.operations| ::
          left.operations[i].subject != right.operations[j].subject)
    && (forall i, j | 0 <= i < |left.consumers| && 0 <= j < |right.consumers| ::
          !(left.consumers[i].stream == right.consumers[j].stream && left.consumers[i].durable == right.consumers[j].durable))
  }

  ghost predicate PairwiseCompatible(services: seq<ServiceSpec>) {
    && (forall i | 0 <= i < |services| :: SelfConsistent(services[i]))
    && (forall i, j | 0 <= i < j < |services| :: Compatible(services[i], services[j]))
  }

  lemma DistinctConcat<K>(a: seq<Entry<K>>, b: seq<Entry<K>>)
    ensures Distinct(a + b) <==> Distinct(a) && Distinct(b) && Apart(a, b)
  {
    if Distinct(a + b) {
      forall i, j | 0 <= i < j < |a|
        ensures a[i].key != a[j].key
      {
        assert (a + b)[i] == a[i] && (a + b)[j] == a[j];
      }
      forall i, j | 0 <= i < j < |b|
        ensures b[i].key != b[j].key
      {
        assert (a + b)[|a| + i] == b[i] && (a + b)[|a| + j] == b[j];
      }
      forall i, j | 0 <= i < |a| && 0 <= j < |b|
        ensures a[i].key != b[j].key
      {
        assert (a + b)[i] == a[i] && (a + b)[|a| + j] == b[j];
      }
    }
  }

  lemma ApartConcat<K>(a: seq<Entry<K>>, b: seq<Entry<K>>, c: seq<Entry<K>>)
    ensures Apart(a, b + c) <==> Apart(a, b) && Apart(a, c)
  {
    if Apart(a, b + c) {
      forall i, j | 0 <= i < |a| && 0 <= j < |b|
        ensures a[i].key != b[j].key
      {
        assert (b + c)[j] == b[j];
      }
      forall i, j | 0 <= i < |a| && 0 <= j < |c|
        ensures a[i].key != c[j].key
      {
        assert (b + c)[|b| + j] == c[j];
      }
    }
  }

  lemma {:induction false} ApartFromAll(s: ServiceSpec, services: seq<ServiceSpec>)
    ensures
      (&& Apart(OperationEntries(s), AllOperations(services))
       && Apart(ConsumerEntries(s), AllConsumers(services)))
      <==> forall j | 0 <= j < |services| :: Compatible(s, services[j])
  {
    if services != [] {
      ApartFromAll(s, services[1..]);
      ApartConcat(OperationEntries(s), OperationEntries(services[0]), AllOperations(services[1..]));
      ApartConcat(ConsumerEntries(s), ConsumerEntries(services[0]), AllConsumers(services[1..]));
      CompatibleIsApart(s, services[0]);
      assert (forall j | 0 <= j < |services| :: Compatible(s, services[j]))
        <==> Compatible(s, services[0]) && forall j | 0 <= j < |services[1..]| :: Compatible(s, services[1..][j]) by {
        assert forall j | 1 <= j < |services| :: services[j] == services[1..][j - 1];
      }
    }
  }

  lemma CompatibleIsApart(left: ServiceSpec, right: ServiceSpec)
    ensures Compatible(left, right) <==>
              Apart(OperationEntries(left), OperationEntries(right)) && Apart(ConsumerEntries(left), ConsumerEntries(right))
  {
    if Apart(OperationEntries(left), OperationEntries(right)) && Apart(ConsumerEntries(left), ConsumerEntries(right)) {
      forall i, j | 0 <= i < |left.operations| && 0 <= j < |right.operations|
        ensures left.operations[i].subject != right.operations[j].subject
      {
        assert OperationEntries(left)[i].key != OperationEntries(right)[j].key;
      }
      forall i, j | 0 <= i < |left.consumers| && 0 <= j < |right.consumers|
        ensures !(left.consumers[i].stream == right.consumers[j].stream && left.consumers[i].durable == right.consumers[j].durable)
      {
        assert ConsumerEntries(left)[i].key != ConsumerEntries(right)[j].key;
      }
    }
  }

  /** One list of distinct keys over all services is the same as the quadratic pairwise check. */
  lemma {:induction false} DistinctIffPairwise(services: seq<ServiceSpec>)
    ensures Distinct(AllOperations(services)) && Distinct(AllConsumers(services)) <==> PairwiseCompatible(services)
  {
    if services != [] {
      var head, tail := services[0], services[1..];
      DistinctIffPairwise(tail);
      DistinctConcat(OperationEntries(head), AllOperations(tail));
      DistinctConcat(ConsumerEntries(head), AllConsumers(tail));
      ApartFromAll(head, tail);
      PairwiseCons(services);
    }
  }

  lemma PairwiseCons(services: seq<ServiceSpec>)
    requires services != []
    ensures PairwiseCompatible(services) <==>
              && SelfConsistent(services[0])
              && (forall j | 0 <= j < |services[1..]| :: Compatible(services[0], services[1..][j]))
              && PairwiseCompatible(services[1..])
  {
    assert forall j | 1 <= j < |services| :: services[j] == services[1..][j - 1];
  }

  /** `str_eq`: equality of two strings, decided byte by byte. */
  method StrEq(left: Str, right: Str) returns (equal: bool)
    ensures equal <==> left == right
  {
    if |left| != |right| {
      return false;
    }
    var index := 0;
    while index < |left|
      invariant 0 <= index <= |left|
      invariant left[..index] == right[..index]
    {
      if left[index] != right[index] {
        return false;
      }
      index := index + 1;
    }
    return true;
  }

  /** `assert_services_compatible`; `false` stands for the panic of one of its assertions. */
  method AssertServicesCompatible(left: ServiceSpec, right: ServiceSpec) returns (compatible: bool)
    ensures compatible <==> Compatible(left, right)
  {
    var leftIndex := 0;
    while leftIndex < |left.operations|
      invariant 0 <= leftIndex <= |left.operations|
      invariant forall i, j | 0 <= i < leftIndex && 0 <= j < |right.operations| ::
                  left.operations[i].subject != right.operations[j].subject
    {
      var rightIndex := 0;
      while rightIndex < |right.operations|
        invariant 0 <= rightIndex <= |right.operations|
        invariant forall j | 0 <= j < rightIndex ::
                    left.operations[leftIndex].subject != right.operations[j].subject
      {
        var same := StrEq(left.operations[leftIndex].subject, right.operations[rightIndex].subject);
        if same {
          return false;
        }
        rightIndex := rightIndex + 1;
      }
      leftIndex := leftIndex + 1;
    }
    var leftConsumer := 0;
    while leftConsumer < |left.consumers|
      invariant 0 <= leftConsumer <= |left.consumers|
      invariant forall i, j | 0 <= i < leftConsumer && 0 <= j < |right.consumers| ::
                  !(left.consumers[i].stream == right.consumers[j].stream
                    && left.consumers[i].durable == right.consumers[j].durable)
    {
      var rightConsumer := 0;
      while rightConsumer < |right.consumers|
        invariant 0 <= rightConsumer <= |right.consumers|
        invariant forall j | 0 <= j < rightConsumer ::
                    !(left.consumers[leftConsumer].stream == right.consumers[j].stream
                      && left.consumers[leftConsumer].durable == right.consumers[j].durable)
      {
        var sameStream := StrEq(left.consumers[leftConsumer].stream, right.consumers[rightConsumer].stream);
        var sameDurable := StrEq(left.consumers[leftConsumer].durable, right.consumers[rightConsumer].durable);
        if sameStream && sameDurable {
          return false;
        }
        rightConsumer := rightConsumer + 1;
      }
      leftConsumer := leftConsumer + 1;
    }
    return true;
  }
}
